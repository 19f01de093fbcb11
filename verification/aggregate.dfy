/**
 The batch driver of `main`: which files are skipped, how per-level parses are
 grouped by slug in first-encounter order, how ids are numbered, and how the
 fixed-schema records are filled. Listing the directory and extracting a
 document's text are not modelled: a batch is the sequence of
 (filename, extracted text) pairs in the order the listing produced them, and
 an extraction failure is the empty text.
 */
module Aggregate {
  import opened Options
  import opened Text
  import Filename
  import Segment

  datatype SourceFile = SourceFile(name: string, text: string)

  datatype SkipReason = NotDocx | NoLevel | EmptyText

  /** What `main` stores under `articles[slug]['level_N']`. */
  datatype LevelEntry = LevelEntry(
    headline: string,
    articleText: string,
    instruction: string,
    questions: string,
    writingPrompt: string,
    filename: string)

  /** What happens to one file: stored under a slug and a level, or skipped. */
  datatype Outcome =
    | Stored(slug: string, level: nat, entry: LevelEntry)
    | Skipped(reason: SkipReason)

  /** One slug's accumulated levels (an entry of `articles`). */
  datatype Group = Group(slug: string, levels: map<nat, LevelEntry>)

  /** The emitted `fields` object, in the order its keys are written. */
  datatype Fields = Fields(
    headline: string,
    slug: string,
    imageUrl: string,
    level0Text: string,
    level0Questions: string,
    level1Text: string,
    level1Questions: string,
    level1Instruction: string,
    level2Text: string,
    level2Questions: string,
    level3Text: string,
    level3Questions: string,
    level3Instruction: string,
    level4Text: string,
    level4Questions: string,
    level5Text: string,
    level5Questions: string,
    level6Text: string,
    level6Questions: string,
    level6Instruction: string,
    level6WritingPrompt: string)

  datatype ArticleRecord = ArticleRecord(id: string, fields: Fields)

  const FieldNames: seq<string> := [
    "Headline", "Slug", "Image URL",
    "Level 0 Text", "Level 0 Questions",
    "Level 1 Text", "Level 1 Questions", "Level 1 Instruction",
    "Level 2 Text", "Level 2 Questions",
    "Level 3 Text", "Level 3 Questions", "Level 3 Instruction",
    "Level 4 Text", "Level 4 Questions",
    "Level 5 Text", "Level 5 Questions",
    "Level 6 Text", "Level 6 Questions", "Level 6 Instruction",
    "Level 6 Writing Prompt"]

  // ---------------------------------------------------------------------------
  // One file
  // ---------------------------------------------------------------------------

  /** The body of `main`'s first loop for one file. */
  function Classify(f: SourceFile): (o: Outcome)
    ensures o == Skipped(NotDocx) <==> !EndsWith(f.name, Filename.Extension)
    ensures o == Skipped(NoLevel) <==> EndsWith(f.name, Filename.Extension) && !Filename.HasLevelToken(f.name)
    ensures o == Skipped(EmptyText) <==>
              EndsWith(f.name, Filename.Extension) && Filename.HasLevelToken(f.name) && f.text == []
    ensures o.Stored? ==> Filename.LevelToken(f.name) == Some(o.level) && Filename.IsSlug(o.slug)
    ensures o.Stored? ==> o.slug == Filename.ParseFilename(f.name)
    ensures o.Stored? ==> o.entry.filename == f.name && o.entry.headline == Segment.Headline(f.text)
    ensures o.Stored? ==>
              var s := Segment.ParseLevelContent(f.text, o.level);
              && o.entry.articleText == s.articleText && o.entry.instruction == s.instruction
              && o.entry.questions == s.questions && o.entry.writingPrompt == s.writingPrompt
  {
    if !EndsWith(f.name, Filename.Extension) then
      Skipped(NotDocx)
    else
      match Filename.LevelToken(f.name)
      case None => Skipped(NoLevel)
      case Some(level) =>
        var slug := Filename.ParseFilename(f.name);
        if f.text == [] then
          Skipped(EmptyText)
        else
          var s := Segment.ParseLevelContent(f.text, level);
          Stored(slug, level, LevelEntry(Segment.Headline(f.text), s.articleText, s.instruction,
                                         s.questions, s.writingPrompt, f.name))
  }

  // ---------------------------------------------------------------------------
  // Grouping: an insertion-ordered association list from slug to levels
  // ---------------------------------------------------------------------------

  function Slugs(groups: seq<Group>): (r: seq<string>)
    ensures |r| == |groups| && forall i :: 0 <= i < |groups| ==> r[i] == groups[i].slug
  {
    seq(|groups|, i requires 0 <= i < |groups| => groups[i].slug)
  }

  predicate Distinct<T(==)>(s: seq<T>) {
    forall i, j :: 0 <= i < j < |s| ==> s[i] != s[j]
  }

  function IndexFrom(groups: seq<Group>, slug: string, i: nat): (r: Option<nat>)
    requires i <= |groups|
    ensures r.None? ==> forall k :: i <= k < |groups| ==> groups[k].slug != slug
    ensures r.Some? ==> i <= r.value < |groups| && groups[r.value].slug == slug
    decreases |groups| - i
  {
    if i == |groups| then None
    else if groups[i].slug == slug then Some(i)
    else IndexFrom(groups, slug, i + 1)
  }

  /** Where `slug` sits in the association list, if anywhere. */
  function IndexOf(groups: seq<Group>, slug: string): (r: Option<nat>)
    ensures r.None? <==> slug !in Slugs(groups)
    ensures r.Some? ==> r.value < |groups| && groups[r.value].slug == slug
  {
    IndexFrom(groups, slug, 0)
  }

  /** The levels of a slug seen for the first time. */
  function FirstLevel(level: nat, entry: LevelEntry): map<nat, LevelEntry> {
    map[level := entry]
  }

  /** The levels of a known slug after storing `entry` at `level`. */
  function SetLevel(levels: map<nat, LevelEntry>, level: nat, entry: LevelEntry): map<nat, LevelEntry> {
    levels[level := entry]
  }

  /** `articles[slug]['level_N'] = entry`: a new slug goes last, a known one is updated in place. */
  function Add(groups: seq<Group>, slug: string, level: nat, entry: LevelEntry): (r: seq<Group>)
    ensures slug in Slugs(groups) ==> Slugs(r) == Slugs(groups)
    ensures slug !in Slugs(groups) ==> Slugs(r) == Slugs(groups) + [slug]
  {
    match IndexOf(groups, slug)
    case Some(i) => groups[i := Group(slug, SetLevel(groups[i].levels, level, entry))]
    case None => groups + [Group(slug, FirstLevel(level, entry))]
  }

  /** What happens to each listed file, in listing order. */
  function Outcomes(files: seq<SourceFile>): (outs: seq<Outcome>)
    ensures |outs| == |files|
    ensures forall i :: 0 <= i < |files| ==> outs[i] == Classify(files[i])
  {
    seq(|files|, i requires 0 <= i < |files| => Classify(files[i]))
  }

  /** `main`'s first loop, as a fold over the outcomes of the listed files. */
  function Accumulate(outs: seq<Outcome>): (groups: seq<Group>)
    ensures |groups| <= |outs|
    ensures Distinct(Slugs(groups))
    decreases |outs|
  {
    if outs == [] then []
    else
      var groups := Accumulate(outs[..|outs| - 1]);
      match outs[|outs| - 1]
      case Skipped(_) => groups
      case Stored(slug, level, entry) => Add(groups, slug, level, entry)
  }

  function Collect(files: seq<SourceFile>): seq<Group> {
    Accumulate(Outcomes(files))
  }

  // ---------------------------------------------------------------------------
  // Reference definitions over the outcomes
  // ---------------------------------------------------------------------------

  /** The slugs of the stored files, one per stored file, in listing order. */
  function StoredSlugs(outs: seq<Outcome>): seq<string>
    decreases |outs|
  {
    if outs == [] then []
    else
      StoredSlugs(outs[..|outs| - 1]) +
        match outs[|outs| - 1]
        case Stored(slug, _, _) => [slug]
        case Skipped(_) => []
  }

  /** The entry of the last stored file with this slug and level, if any. */
  function LastEntry(outs: seq<Outcome>, slug: string, level: nat): Option<LevelEntry>
    decreases |outs|
  {
    if outs == [] then None
    else
      match outs[|outs| - 1]
      case Stored(s, l, e) =>
        if s == slug && l == level then Some(e) else LastEntry(outs[..|outs| - 1], slug, level)
      case Skipped(_) => LastEntry(outs[..|outs| - 1], slug, level)
  }

  /** The position of the first occurrence of `x` in `s`. */
  function FirstIndex<T(==)>(s: seq<T>, x: T): (r: nat)
    requires x in s
    ensures r < |s| && s[r] == x && forall k :: 0 <= k < r ==> s[k] != x
  {
    if s[0] == x then 0 else 1 + FirstIndex(s[1..], x)
  }

  // ---------------------------------------------------------------------------
  // Grouping lemmas
  // ---------------------------------------------------------------------------

  lemma FirstIndexAppend<T>(s: seq<T>, x: T, y: T)
    requires x in s
    ensures x in s + [y] && FirstIndex(s + [y], x) == FirstIndex(s, x)
  {
    var i := FirstIndex(s, x);
    assert (s + [y])[i] == x;
  }

  lemma FirstIndexAppendNew<T>(s: seq<T>, x: T)
    requires x !in s
    ensures FirstIndex(s + [x], x) == |s|
  {
  }

  /**
   `keys` lists the distinct members of `stored`, each once, in the order of
   their first occurrence in `stored`.
   */
  ghost predicate FirstSeen(keys: seq<string>, stored: seq<string>) {
    && Distinct(keys)
    && (forall s :: s in keys <==> s in stored)
    && forall i, j :: 0 <= i < j < |keys| ==> FirstIndex(stored, keys[i]) < FirstIndex(stored, keys[j])
  }

  /** Appending to `stored` moves no first occurrence of what was already there. */
  lemma FirstIndexStable(stored: seq<string>, slug: string)
    ensures forall s :: s in stored ==> s in stored + [slug] && FirstIndex(stored + [slug], s) == FirstIndex(stored, s)
  {
    forall s | s in stored ensures FirstIndex(stored + [slug], s) == FirstIndex(stored, s) {
      FirstIndexAppend(stored, s, slug);
    }
  }

  /** Seeing a known key again changes neither the keys nor their order. */
  lemma FirstSeenKnown(keys: seq<string>, stored: seq<string>, slug: string)
    requires FirstSeen(keys, stored) && slug in keys
    ensures FirstSeen(keys, stored + [slug])
  {
    FirstIndexStable(stored, slug);
  }

  /** Seeing a new key appends it, after every key seen before. */
  lemma FirstSeenNew(keys: seq<string>, stored: seq<string>, slug: string)
    requires FirstSeen(keys, stored) && slug !in keys
    ensures FirstSeen(keys + [slug], stored + [slug])
  {
    FirstIndexStable(stored, slug);
    FirstIndexAppendNew(stored, slug);
    var k := keys + [slug];
    forall i | 0 <= i < |keys| ensures FirstIndex(stored + [slug], k[i]) < |stored| {
      assert k[i] == keys[i];
    }
  }

  lemma {:induction false} AccumulateFirstSeen(outs: seq<Outcome>)
    ensures FirstSeen(Slugs(Accumulate(outs)), StoredSlugs(outs))
    decreases |outs|
  {
    if outs != [] {
      var prefix := outs[..|outs| - 1];
      AccumulateFirstSeen(prefix);
      match outs[|outs| - 1]
      case Skipped(_) =>
        assert StoredSlugs(outs) == StoredSlugs(prefix);
      case Stored(slug, level, entry) =>
        assert StoredSlugs(outs) == StoredSlugs(prefix) + [slug];
        if slug in Slugs(Accumulate(prefix)) {
          FirstSeenKnown(Slugs(Accumulate(prefix)), StoredSlugs(prefix), slug);
        } else {
          FirstSeenNew(Slugs(Accumulate(prefix)), StoredSlugs(prefix), slug);
        }
    }
  }

  /**
   The association list holds each stored slug once, and in the order in
   which the slugs were first stored.
   */
  lemma AccumulateSlugs(outs: seq<Outcome>)
    ensures Distinct(Slugs(Accumulate(outs)))
    ensures forall s :: s in Slugs(Accumulate(outs)) <==> s in StoredSlugs(outs)
    ensures forall i, j :: 0 <= i < j < |Accumulate(outs)| ==>
              FirstIndex(StoredSlugs(outs), Accumulate(outs)[i].slug)
                < FirstIndex(StoredSlugs(outs), Accumulate(outs)[j].slug)
  {
    AccumulateFirstSeen(outs);
    var keys := Slugs(Accumulate(outs));
    forall i, j | 0 <= i < j < |Accumulate(outs)|
      ensures FirstIndex(StoredSlugs(outs), Accumulate(outs)[i].slug)
                < FirstIndex(StoredSlugs(outs), Accumulate(outs)[j].slug)
    {
      assert keys[i] == Accumulate(outs)[i].slug && keys[j] == Accumulate(outs)[j].slug;
    }
  }

  /** The levels stored under `slug`, if the slug is present. */
  function Lookup(groups: seq<Group>, slug: string): Option<map<nat, LevelEntry>> {
    match IndexOf(groups, slug)
    case Some(i) => Some(groups[i].levels)
    case None => None
  }

  /** Adding touches only the added slug's levels, and only at the added level. */
  lemma LookupAdd(groups: seq<Group>, slug: string, level: nat, entry: LevelEntry, t: string)
    requires Distinct(Slugs(groups))
    ensures t != slug ==> Lookup(Add(groups, slug, level, entry), t) == Lookup(groups, t)
    ensures t == slug ==>
              (Lookup(Add(groups, slug, level, entry), t) ==
                 Some((if Lookup(groups, t).Some? then Lookup(groups, t).value else map[])[level := entry]))
  {
    var g := Add(groups, slug, level, entry);
    assert Slugs(g) == Slugs(groups) || Slugs(g) == Slugs(groups) + [slug];
    match IndexOf(g, t)
    case Some(k) =>
    case None =>
    match IndexOf(groups, t)
    case Some(k) =>
    case None =>
  }

  /**
   Last write wins: under each stored slug, a level is present exactly when
   some stored file had that slug and level, and it holds the last such file's entry.
   */
  lemma {:induction false} AccumulateLevels(outs: seq<Outcome>, slug: string, level: nat)
    ensures Lookup(Accumulate(outs), slug).Some? <==> slug in StoredSlugs(outs)
    ensures slug !in StoredSlugs(outs) ==> LastEntry(outs, slug, level).None?
    ensures Lookup(Accumulate(outs), slug).Some? ==>
              && (level in Lookup(Accumulate(outs), slug).value <==> LastEntry(outs, slug, level).Some?)
              && (level in Lookup(Accumulate(outs), slug).value ==>
                    Lookup(Accumulate(outs), slug).value[level] == LastEntry(outs, slug, level).value)
    decreases |outs|
  {
    AccumulateSlugs(outs);
    if outs != [] {
      var prefix := outs[..|outs| - 1];
      AccumulateLevels(prefix, slug, level);
      AccumulateSlugs(prefix);
      match outs[|outs| - 1]
      case Skipped(_) =>
      case Stored(s, l, e) =>
        assert Accumulate(outs) == Add(Accumulate(prefix), s, l, e);
        assert StoredSlugs(outs) == StoredSlugs(prefix) + [s];
        assert LastEntry(outs, slug, level) ==
                 if s == slug && l == level then Some(e) else LastEntry(prefix, slug, level);
        LookupAdd(Accumulate(prefix), s, l, e, slug);
    }
  }

  // ---------------------------------------------------------------------------
  // Records
  // ---------------------------------------------------------------------------

  /** `f'rec{n:03d}'` */
  function RecordId(n: nat): (id: string)
    ensures ParseRecordId(id) == Some(n)
  {
    var digits := ZeroPad(n, 3);
    assert ("rec" + digits)[..3] == "rec";
    assert ("rec" + digits)[3..] == digits;
    "rec" + digits
  }

  /** Reads the counter back out of an id. */
  function ParseRecordId(id: string): Option<nat> {
    if |id| > 3 && id[..3] == "rec" && AllDigits(id[3..]) then Some(DigitsValue(id[3..])) else None
  }

  /** Counters below 1000 give six-character ids such as `rec007`. */
  lemma RecordIdWidth(n: nat)
    requires n < 1000
    ensures |RecordId(n)| == 6
  {
    if n >= 100 {
      assert Decimal(n) == Decimal(n / 10) + [DigitChar(n % 10)];
      assert Decimal(n / 10) == Decimal(n / 100) + [DigitChar(n / 10 % 10)];
    } else if n >= 10 {
      assert Decimal(n) == Decimal(n / 10) + [DigitChar(n % 10)];
    }
  }

  lemma RecordIdExample()
    ensures RecordId(7) == "rec007"
  {
    assert Decimal(7) == ['7'];
    assert Zeros(2) == "00";
  }

  function Get(levels: map<nat, LevelEntry>, level: nat): Option<LevelEntry> {
    if level in levels then Some(levels[level]) else None
  }

  /** The levels whose headline a record may take, most preferred first. */
  const HeadlinePriority: seq<nat> := [3, 1, 6]

  /** The headline rule: level 3's, else level 1's, else level 6's, else empty. */
  function ResolveHeadline(levels: map<nat, LevelEntry>): (r: string)
    ensures forall k :: 0 <= k < |HeadlinePriority| && HeadlinePriority[k] in levels &&
                        (forall m :: 0 <= m < k ==> HeadlinePriority[m] !in levels) ==>
                          r == levels[HeadlinePriority[k]].headline
    ensures (forall k :: 0 <= k < |HeadlinePriority| ==> HeadlinePriority[k] !in levels) ==> r == ""
  {
    assert HeadlinePriority[0] == 3 && HeadlinePriority[1] == 1 && HeadlinePriority[2] == 6;
    if 3 in levels then levels[3].headline
    else if 1 in levels then levels[1].headline
    else if 6 in levels then levels[6].headline
    else ""
  }

  /** One iteration of `main`'s second loop: the record for group `g` with counter `n`. */
  function BuildRecord(n: nat, g: Group): (r: ArticleRecord)
    ensures r.id == RecordId(n) && r.fields.slug == g.slug
  {
    var l1 := Get(g.levels, 1);
    var l3 := Get(g.levels, 3);
    var l6 := Get(g.levels, 6);
    ArticleRecord(
      RecordId(n),
      Fields(
        headline := ResolveHeadline(g.levels),
        slug := g.slug,
        imageUrl := "",
        level0Text := "",
        level0Questions := "",
        level1Text := if l1.Some? then l1.value.articleText else "",
        level1Questions := if l1.Some? then l1.value.questions else "",
        level1Instruction := if l1.Some? then l1.value.instruction else "",
        level2Text := "",
        level2Questions := "",
        level3Text := if l3.Some? then l3.value.articleText else "",
        level3Questions := if l3.Some? then l3.value.questions else "",
        level3Instruction := if l3.Some? then l3.value.instruction else "",
        level4Text := "",
        level4Questions := "",
        level5Text := "",
        level5Questions := "",
        level6Text := if l6.Some? then l6.value.articleText else "",
        level6Questions := if l6.Some? then l6.value.questions else "",
        level6Instruction := if l6.Some? then l6.value.instruction else "",
        level6WritingPrompt := if l6.Some? then l6.value.writingPrompt else ""))
  }

  /** `main`'s second loop: one record per group, numbered from 1 in list order. */
  function Finalize(groups: seq<Group>): (records: seq<ArticleRecord>)
    ensures |records| == |groups|
    ensures forall i :: 0 <= i < |groups| ==> records[i] == BuildRecord(i + 1, groups[i])
    ensures forall i :: 0 <= i < |groups| ==> records[i].id == RecordId(i + 1) && records[i].fields.slug == groups[i].slug
  {
    seq(|groups|, i requires 0 <= i < |groups| => BuildRecord(i + 1, groups[i]))
  }

  /** The records `main` writes for a batch. */
  function Records(files: seq<SourceFile>): seq<ArticleRecord> {
    Finalize(Collect(files))
  }

  /** The emitted key/value pairs of a record's fields, in the order they are written. */
  function FieldEntries(f: Fields): (r: seq<(string, string)>)
    ensures |r| == |FieldNames|
    ensures forall i :: 0 <= i < |r| ==> r[i].0 == FieldNames[i]
  {
    [("Headline", f.headline), ("Slug", f.slug), ("Image URL", f.imageUrl),
     ("Level 0 Text", f.level0Text), ("Level 0 Questions", f.level0Questions),
     ("Level 1 Text", f.level1Text), ("Level 1 Questions", f.level1Questions),
     ("Level 1 Instruction", f.level1Instruction),
     ("Level 2 Text", f.level2Text), ("Level 2 Questions", f.level2Questions),
     ("Level 3 Text", f.level3Text), ("Level 3 Questions", f.level3Questions),
     ("Level 3 Instruction", f.level3Instruction),
     ("Level 4 Text", f.level4Text), ("Level 4 Questions", f.level4Questions),
     ("Level 5 Text", f.level5Text), ("Level 5 Questions", f.level5Questions),
     ("Level 6 Text", f.level6Text), ("Level 6 Questions", f.level6Questions),
     ("Level 6 Instruction", f.level6Instruction),
     ("Level 6 Writing Prompt", f.level6WritingPrompt)]
  }

  // ---------------------------------------------------------------------------
  // Properties of the records of a batch
  // ---------------------------------------------------------------------------

  lemma {:induction false} DistinctCard<T>(s: seq<T>)
    requires Distinct(s)
    ensures |set x | x in s| == |s|
    decreases |s|
  {
    if s != [] {
      var t := s[..|s| - 1];
      assert Distinct(t);
      DistinctCard(t);
      assert s[|s| - 1] !in t;
      assert (set x | x in s) == (set x | x in t) + {s[|s| - 1]};
    }
  }

  /**
   One record per distinct stored slug, in the order the slugs were first
   stored, numbered from `rec001`.
   */
  lemma RecordsOrder(outs: seq<Outcome>)
    ensures |Finalize(Accumulate(outs))| == |set s | s in StoredSlugs(outs)|
    ensures forall i :: 0 <= i < |Finalize(Accumulate(outs))| ==>
              && Finalize(Accumulate(outs))[i].id == RecordId(i + 1)
              && Finalize(Accumulate(outs))[i].fields.slug in StoredSlugs(outs)
    ensures forall s :: s in StoredSlugs(outs) ==>
              exists i :: 0 <= i < |Finalize(Accumulate(outs))| && Finalize(Accumulate(outs))[i].fields.slug == s
    ensures forall i, j :: 0 <= i < j < |Finalize(Accumulate(outs))| ==>
              && Finalize(Accumulate(outs))[i].fields.slug != Finalize(Accumulate(outs))[j].fields.slug
              && FirstIndex(StoredSlugs(outs), Finalize(Accumulate(outs))[i].fields.slug)
                   < FirstIndex(StoredSlugs(outs), Finalize(Accumulate(outs))[j].fields.slug)
  {
    AccumulateSlugs(outs);
    FinalizeCovers(Accumulate(outs), StoredSlugs(outs));
    FinalizeOrdered(Accumulate(outs), StoredSlugs(outs));
  }

  /** The records of an association list with distinct slugs, which are exactly the slugs of `stored`. */
  lemma FinalizeCovers(groups: seq<Group>, stored: seq<string>)
    requires Distinct(Slugs(groups))
    requires forall s :: s in Slugs(groups) <==> s in stored
    ensures |Finalize(groups)| == |set s | s in stored|
    ensures forall i :: 0 <= i < |Finalize(groups)| ==>
              && Finalize(groups)[i].id == RecordId(i + 1)
              && Finalize(groups)[i].fields.slug in stored
    ensures forall s :: s in stored ==>
              exists i :: 0 <= i < |Finalize(groups)| && Finalize(groups)[i].fields.slug == s
  {
    FinalizeSlugs(groups);
    SameMembers(Slugs(groups), stored);
  }

  lemma SameMembers<T>(a: seq<T>, b: seq<T>)
    requires forall x :: x in a <==> x in b
    ensures (set x | x in a) == (set x | x in b)
  {
  }

  /** Records keep the groups' order, so they follow first positions in `stored`. */
  lemma FinalizeOrdered(groups: seq<Group>, stored: seq<string>)
    requires forall i, j :: 0 <= i < j < |groups| ==>
               && groups[i].slug in stored && groups[j].slug in stored
               && FirstIndex(stored, groups[i].slug) < FirstIndex(stored, groups[j].slug)
    ensures forall i, j :: 0 <= i < j < |Finalize(groups)| ==>
              && Finalize(groups)[i].fields.slug != Finalize(groups)[j].fields.slug
              && FirstIndex(stored, Finalize(groups)[i].fields.slug)
                   < FirstIndex(stored, Finalize(groups)[j].fields.slug)
  {
    var records := Finalize(groups);
    forall i, j | 0 <= i < j < |records|
      ensures records[i].fields.slug != records[j].fields.slug
      ensures FirstIndex(stored, records[i].fields.slug) < FirstIndex(stored, records[j].fields.slug)
    {
      assert records[i].fields.slug == Slugs(groups)[i];
      assert records[j].fields.slug == Slugs(groups)[j];
    }
  }

  /** The records of an association list follow its slugs one for one. */
  lemma FinalizeSlugs(groups: seq<Group>)
    requires Distinct(Slugs(groups))
    ensures |Finalize(groups)| == |set s | s in Slugs(groups)|
    ensures forall s :: s in Slugs(groups) ==>
              exists i :: 0 <= i < |Finalize(groups)| && Finalize(groups)[i].fields.slug == s
    ensures forall i :: 0 <= i < |Finalize(groups)| ==> Finalize(groups)[i].fields.slug in Slugs(groups)
  {
    var records := Finalize(groups);
    DistinctCard(Slugs(groups));
    forall s | s in Slugs(groups)
      ensures exists i :: 0 <= i < |records| && records[i].fields.slug == s
    {
      var i :| 0 <= i < |groups| && Slugs(groups)[i] == s;
      assert records[i].fields.slug == s;
    }
  }

  /** No two records share an id. */
  lemma RecordIdsDistinct(outs: seq<Outcome>)
    ensures forall i, j :: 0 <= i < j < |Finalize(Accumulate(outs))| ==>
              Finalize(Accumulate(outs))[i].id != Finalize(Accumulate(outs))[j].id
  {
    var records := Finalize(Accumulate(outs));
    forall i, j | 0 <= i < j < |records| ensures records[i].id != records[j].id {
    }
  }

  /**
   Every field of a record, stated against the stored files: reserved fields
   are empty, a level's fields come from the last file stored for that slug
   and level or are empty, and the headline follows the 3, 1, 6 priority.
   */
  lemma RecordFields(outs: seq<Outcome>, i: nat)
    requires i < |Finalize(Accumulate(outs))|
    ensures
      var f := Finalize(Accumulate(outs))[i].fields;
      var e1 := LastEntry(outs, f.slug, 1);
      var e3 := LastEntry(outs, f.slug, 3);
      var e6 := LastEntry(outs, f.slug, 6);
      && f.imageUrl == "" && f.level0Text == "" && f.level0Questions == ""
      && f.level2Text == "" && f.level2Questions == ""
      && f.level4Text == "" && f.level4Questions == ""
      && f.level5Text == "" && f.level5Questions == ""
      && f.headline == (if e3.Some? then e3.value.headline
                        else if e1.Some? then e1.value.headline
                        else if e6.Some? then e6.value.headline
                        else "")
      && f.level1Text == (if e1.Some? then e1.value.articleText else "")
      && f.level1Questions == (if e1.Some? then e1.value.questions else "")
      && f.level1Instruction == (if e1.Some? then e1.value.instruction else "")
      && f.level3Text == (if e3.Some? then e3.value.articleText else "")
      && f.level3Questions == (if e3.Some? then e3.value.questions else "")
      && f.level3Instruction == (if e3.Some? then e3.value.instruction else "")
      && f.level6Text == (if e6.Some? then e6.value.articleText else "")
      && f.level6Questions == (if e6.Some? then e6.value.questions else "")
      && f.level6Instruction == (if e6.Some? then e6.value.instruction else "")
      && f.level6WritingPrompt == (if e6.Some? then e6.value.writingPrompt else "")
  {
    var g := Accumulate(outs)[i];
    assert Finalize(Accumulate(outs))[i] == BuildRecord(i + 1, g);
    GroupLevels(outs, i, 1);
    GroupLevels(outs, i, 3);
    GroupLevels(outs, i, 6);
  }

  /** A group's entry at a level is the last stored file's for its slug and that level. */
  lemma GroupLevels(outs: seq<Outcome>, i: nat, level: nat)
    requires i < |Accumulate(outs)|
    ensures Get(Accumulate(outs)[i].levels, level) == LastEntry(outs, Accumulate(outs)[i].slug, level)
  {
    var groups := Accumulate(outs);
    var g := groups[i];
    AccumulateSlugs(outs);
    assert Slugs(groups)[i] == g.slug;
    assert IndexOf(groups, g.slug) == Some(i);
    assert Lookup(groups, g.slug) == Some(g.levels);
    AccumulateLevels(outs, g.slug, level);
  }

  /** Listing one more file appends its outcome. */
  lemma OutcomesSnoc(files: seq<SourceFile>, f: SourceFile)
    ensures Outcomes(files + [f]) == Outcomes(files) + [Classify(f)]
    ensures (Outcomes(files) + [Classify(f)])[..|files|] == Outcomes(files)
  {
  }

  /** Skipped files contribute nothing: the batch gives the records of its stored files alone. */
  lemma SkippedFilesIgnored(files: seq<SourceFile>, f: SourceFile)
    requires Classify(f).Skipped?
    ensures Records(files + [f]) == Records(files)
    ensures StoredSlugs(Outcomes(files + [f])) == StoredSlugs(Outcomes(files))
  {
    OutcomesSnoc(files, f);
  }

  /** A skipped outcome anywhere in the sequence leaves the groups as they would be without it. */
  lemma {:induction false} AccumulateSkipsSkipped(a: seq<Outcome>, o: Outcome, b: seq<Outcome>)
    requires o.Skipped?
    ensures Accumulate(a + [o] + b) == Accumulate(a + b)
    decreases |b|
  {
    if b == [] {
      assert a + [o] + b == a + [o] && a + b == a;
      AccumulateSnoc(a, o);
    } else {
      var b', c := b[..|b| - 1], b[|b| - 1];
      assert b == b' + [c];
      assert a + [o] + b == (a + [o] + b') + [c];
      assert a + b == (a + b') + [c];
      AccumulateSkipsSkipped(a, o, b');
      AccumulateSnoc(a + [o] + b', c);
      AccumulateSnoc(a + b', c);
    }
  }

  /** One more outcome is one more step of the fold. */
  lemma AccumulateSnoc(outs: seq<Outcome>, o: Outcome)
    ensures Accumulate(outs + [o]) ==
              if o.Skipped? then Accumulate(outs) else Add(Accumulate(outs), o.slug, o.level, o.entry)
  {
    assert (outs + [o])[..|outs|] == outs;
    assert (outs + [o])[|outs|] == o;
  }

  /** Skipped files contribute nothing wherever they are listed. */
  lemma SkippedFileAnywhere(a: seq<SourceFile>, f: SourceFile, b: seq<SourceFile>)
    requires Classify(f).Skipped?
    ensures Records(a + [f] + b) == Records(a + b)
  {
    OutcomesAppend(a + [f], b);
    OutcomesAppend(a, [f]);
    OutcomesAppend(a, b);
    assert Outcomes([f]) == [Classify(f)];
    AccumulateSkipsSkipped(Outcomes(a), Classify(f), Outcomes(b));
  }

  /** Classification is per file, so the outcomes of a concatenation concatenate. */
  lemma OutcomesAppend(a: seq<SourceFile>, b: seq<SourceFile>)
    ensures Outcomes(a + b) == Outcomes(a) + Outcomes(b)
  {
    var l, r := Outcomes(a + b), Outcomes(a) + Outcomes(b);
    forall i | 0 <= i < |l|
      ensures l[i] == r[i]
    {
      if i < |a| {
        assert (a + b)[i] == a[i];
      } else {
        assert (a + b)[i] == b[i - |a|];
      }
    }
  }

  /** A later stored outcome with the same slug and level replaces the earlier entry. */
  lemma StoreOverwrites(outs: seq<Outcome>, o: Outcome)
    requires o.Stored?
    ensures Lookup(Accumulate(outs + [o]), o.slug).Some?
    ensures o.level in Lookup(Accumulate(outs + [o]), o.slug).value
    ensures Lookup(Accumulate(outs + [o]), o.slug).value[o.level] == o.entry
  {
    assert (outs + [o])[..|outs|] == outs;
    AccumulateSlugs(outs);
    LookupAdd(Accumulate(outs), o.slug, o.level, o.entry, o.slug);
  }

  /** A later file with the same slug and level replaces the earlier entry. */
  lemma LaterFileOverwrites(files: seq<SourceFile>, f: SourceFile)
    requires Classify(f).Stored?
    ensures Lookup(Collect(files + [f]), Classify(f).slug).Some?
    ensures Classify(f).level in Lookup(Collect(files + [f]), Classify(f).slug).value
    ensures Lookup(Collect(files + [f]), Classify(f).slug).value[Classify(f).level] == Classify(f).entry
  {
    OutcomesSnoc(files, f);
    StoreOverwrites(Outcomes(files), Classify(f));
  }

  /** Two stored files with the same slug, whatever their levels, give a single record. */
  lemma SameSlugMerges(o1: Outcome, o2: Outcome)
    requires o1.Stored? && o2.Stored? && o1.slug == o2.slug
    ensures |Finalize(Accumulate([o1, o2]))| == 1
    ensures Finalize(Accumulate([o1, o2]))[0].fields.slug == o1.slug
  {
    var outs := [o1, o2];
    assert outs[..1] == [o1];
    assert outs[..1][..0] == [];
    var g1 := Accumulate([o1]);
    assert [o1][..0] == [];
    assert Accumulate([o1][..0]) == [];
    assert IndexOf([], o1.slug) == None;
    assert g1 == Add([], o1.slug, o1.level, o1.entry);
    assert g1 == [Group(o1.slug, FirstLevel(o1.level, o1.entry))];
    assert IndexOf(g1, o2.slug) == Some(0);
  }

  // ---------------------------------------------------------------------------
  // The same pipeline with an explicit order list and lookup map
  // ---------------------------------------------------------------------------

  /** The order list and map hold exactly the association list `groups`. */
  ghost predicate Mirrors(groups: seq<Group>, order: seq<string>, table: map<string, map<nat, LevelEntry>>) {
    && |order| == |groups|
    && Distinct(order)
    && (forall s :: s in table <==> s in order)
    && forall i :: 0 <= i < |order| ==> order[i] in table && groups[i] == Group(order[i], table[order[i]])
  }

  /** Updating the map in place, or appending a new slug, mirrors `Add`. */
  lemma MirrorsAdd(groups: seq<Group>, order: seq<string>, table: map<string, map<nat, LevelEntry>>,
                   slug: string, level: nat, entry: LevelEntry)
    requires Mirrors(groups, order, table)
    ensures slug in table ==>
              Mirrors(Add(groups, slug, level, entry), order, table[slug := SetLevel(table[slug], level, entry)])
    ensures slug !in table ==>
              Mirrors(Add(groups, slug, level, entry), order + [slug], table[slug := FirstLevel(level, entry)])
  {
    assert Slugs(groups) == order;
    if slug in table {
      var i :| 0 <= i < |order| && order[i] == slug;
      var j := IndexOf(groups, slug).value;
      assert j == i;
    } else {
      assert IndexOf(groups, slug) == None;
    }
  }

  /**
   `main`'s first loop over an insertion-order list of slugs and a map from
   slug to levels (the shape of Python's ordered dict).
   */
  method GroupOutcomes(outs: seq<Outcome>) returns (order: seq<string>, table: map<string, map<nat, LevelEntry>>)
    ensures Mirrors(Accumulate(outs), order, table)
  {
    order := [];
    table := map[];
    var k := 0;
    while k < |outs|
      invariant k <= |outs|
      invariant Mirrors(Accumulate(outs[..k]), order, table)
    {
      assert outs[..k + 1][..k] == outs[..k];
      var o := outs[k];
      if o.Stored? {
        MirrorsAdd(Accumulate(outs[..k]), order, table, o.slug, o.level, o.entry);
        if o.slug in table {
          table := table[o.slug := SetLevel(table[o.slug], o.level, o.entry)];
        } else {
          order := order + [o.slug];
          table := table[o.slug := FirstLevel(o.level, o.entry)];
        }
      }
      k := k + 1;
    }
    assert outs[..k] == outs;
  }

  /** `main`'s second loop over the order list and map: one numbered record per slug. */
  method NumberGroups(order: seq<string>, table: map<string, map<nat, LevelEntry>>, ghost groups: seq<Group>)
    returns (records: seq<ArticleRecord>)
    requires Mirrors(groups, order, table)
    ensures records == Finalize(groups)
  {
    records := [];
    var n := 0;
    while n < |order|
      invariant n <= |order|
      invariant records == Finalize(groups[..n])
    {
      var g := Group(order[n], table[order[n]]);
      assert g == groups[n];
      FinalizeStep(groups, n);
      records := records + [BuildRecord(n + 1, g)];
      n := n + 1;
    }
    assert groups[..n] == groups;
  }

  /** Numbering one more group appends its record. */
  lemma FinalizeStep(groups: seq<Group>, n: nat)
    requires n < |groups|
    ensures Finalize(groups[..n + 1]) == Finalize(groups[..n]) + [BuildRecord(n + 1, groups[n])]
  {
    var a := Finalize(groups[..n + 1]);
    var b := Finalize(groups[..n]);
    forall i | 0 <= i < |b| ensures a[i] == b[i] {
      FinalizeSamePrefix(groups, n, i);
    }
    FinalizeLast(groups, n);
    Snoc(a, b, BuildRecord(n + 1, groups[n]));
  }

  /** A sequence that agrees with `b` and then ends in `x` is `b + [x]`. */
  lemma Snoc<T>(a: seq<T>, b: seq<T>, x: T)
    requires |a| == |b| + 1 && a[|b|] == x
    requires forall i :: 0 <= i < |b| ==> a[i] == b[i]
    ensures a == b + [x]
  {
    assert forall i :: 0 <= i < |a| ==> a[i] == (b + [x])[i];
  }

  /** Records before position `n` do not depend on the groups from `n` on. */
  lemma FinalizeSamePrefix(groups: seq<Group>, n: nat, i: nat)
    requires i < n < |groups|
    ensures Finalize(groups[..n + 1])[i] == Finalize(groups[..n])[i]
  {
    assert groups[..n + 1][i] == groups[..n][i];
  }

  /** The record at position `n` is built from group `n` with counter `n + 1`. */
  lemma FinalizeLast(groups: seq<Group>, n: nat)
    requires n < |groups|
    ensures Finalize(groups[..n + 1])[n] == BuildRecord(n + 1, groups[n])
  {
    assert groups[..n + 1][n] == groups[n];
  }

  /** `main`: classify every file, group, then number the groups' records. */
  method BuildNewsData(files: seq<SourceFile>) returns (records: seq<ArticleRecord>)
    ensures records == Records(files)
    ensures |records| == |set s | s in StoredSlugs(Outcomes(files))|
  {
    var outs := Outcomes(files);
    var order, table := GroupOutcomes(outs);
    records := NumberGroups(order, table, Accumulate(outs));
    RecordsOrder(outs);
  }
}

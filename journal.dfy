/** The daily journal helpers of journal_start.py and journal_end.py:
    locating a `## ` section of a Markdown journal, rewriting its body as a
    checklist, reading `- [ ]` tasks back, carrying unchecked tasks over to
    the next day, and picking the previous journal by the date in its name. */
module Journal {
  import opened Floats
  import opened Text
  import opened Dates

  // --------------------------------------------------------------- sections

  /** Where a section's body lies in the text. */
  datatype Bounds = Bounds(start: nat, end: nat)

  /** The body of the section headed by `marker`: from just after the first
      newline at or after the marker (index 0 when there is none) up to the
      next `\n## `, or to the end of the text. */
  function SectionBounds(text: string, marker: string): (b: Option<Bounds>)
    ensures b.None? <==> !Contains(text, marker)
    ensures b.Some? ==> b.value.start <= b.value.end <= |text|
    ensures b.Some? ==> b.value.start == 0 || text[b.value.start - 1] == '\n'
    ensures b.Some? ==> forall i :: b.value.start <= i < b.value.end ==> !At(text, "\n## ", i)
    ensures b.Some? ==> b.value.end == |text| || At(text, "\n## ", b.value.end)
  {
    var idx := Find(text, marker, 0);
    if idx < 0 then None
    else
      var start := Find(text, "\n", idx) + 1;
      var next := Find(text, "\n## ", start);
      Some(Bounds(start, if next < 0 then |text| else next))
  }

  /** The marker occurs and its line ends with a newline. */
  predicate MarkerLineEnds(text: string, marker: string)
  {
    Contains(text, marker) && Find(text, "\n", Find(text, marker, 0)) >= 0
  }

  /** `extract_section` of journal_end.py, the same slicing as
      `extract_next_steps` of journal_start.py: the body with its bounds, or
      `("", -1, -1)` when the heading is missing. */
  datatype Section = Section(body: string, start: int, end: int)

  function ExtractSection(text: string, title: string): (s: Section)
    ensures s.start == -1 <==> !Contains(text, "## " + title)
    ensures s.start == -1 ==> s == Section("", -1, -1)
    ensures s.start != -1 ==> 0 <= s.start <= s.end <= |text| && s.body == text[s.start..s.end]
  {
    match SectionBounds(text, "## " + title)
    case None => Section("", -1, -1)
    case Some(b) => Section(text[b.start..b.end], b.start, b.end)
  }

  /** `- [ ] item`, an unchecked checkbox line. */
  function Checkboxes(items: seq<string>): (lines: seq<string>)
    ensures |lines| == |items|
    ensures forall k :: 0 <= k < |items| ==> lines[k] == "- [ ] " + items[k]
  {
    seq(|items|, k requires 0 <= k < |items| => "- [ ] " + items[k])
  }

  /** The new block of `replace_section`: one newline-terminated checkbox
      line per item, and nothing for no items. */
  function Bullets(items: seq<string>): string
  {
    JoinLines(Checkboxes(items))
  }

  /** `replace_section`: the body of the titled section becomes `Bullets(items)`;
      without the heading the text is returned unchanged. */
  function ReplaceSection(text: string, title: string, items: seq<string>): (r: string)
    ensures !Contains(text, "## " + title) ==> r == text
  {
    match SectionBounds(text, "## " + title)
    case None => text
    case Some(b) => text[..b.start] + Bullets(items) + text[b.end..]
  }

  /** No `\n## ` reading position of `s` at `i`. */
  predicate NotHeaderAt(s: string, i: nat)
  {
    i + 4 > |s| || s[i] != '\n' || s[i + 1] != '#'
  }

  lemma NoHeader(s: string, i: nat)
    requires NotHeaderAt(s, i)
    ensures !At(s, "\n## ", i)
  {
    if i + 4 <= |s| {
      assert s[i..i + 4][0] == s[i] && s[i..i + 4][1] == s[i + 1];
    }
  }

  /** A checkbox line holds no newline and starts with `-`. */
  lemma CheckboxLine(item: string)
    requires NoBreak(item)
    ensures var line := "- [ ] " + item; line[0] == '-' && forall k :: 0 <= k < |line| ==> line[k] != '\n'
  {
    var line := "- [ ] " + item;
    forall k | 0 <= k < |line| ensures line[k] != '\n'
    {
      if k >= 6 {
        assert line[k] == item[k - 6];
      }
    }
  }

  /** Inside a checklist block every newline ends the block or is followed
      by the `-` of the next checkbox. */
  lemma {:induction false} BulletsBreaks(items: seq<string>)
    requires forall k :: 0 <= k < |items| ==> NoBreak(items[k])
    ensures var b := Bullets(items);
            forall i :: 0 <= i < |b| && b[i] == '\n' ==> i + 1 == |b| || b[i + 1] == '-'
    decreases |items|
  {
    if |items| > 0 {
      var line := "- [ ] " + items[0];
      var rest := Bullets(items[1..]);
      var b := Bullets(items);
      assert Checkboxes(items)[1..] == Checkboxes(items[1..]);
      assert b == line + "\n" + rest;
      BulletsBreaks(items[1..]);
      CheckboxLine(items[0]);
      if |items| > 1 {
        assert Checkboxes(items[1..])[0] == "- [ ] " + items[1];
        CheckboxLine(items[1]);
        assert rest[0] == '-';
      }
      forall i | 0 <= i < |b| ensures b[i] == '\n' ==> i + 1 == |b| || b[i + 1] == '-'
      {
        if i < |line| {
          assert b[i] == line[i];
        } else if i > |line| {
          assert b[i] == rest[i - |line| - 1];
          if i + 1 < |b| {
            assert b[i + 1] == rest[i - |line|];
          }
        } else if i + 1 < |b| {
          assert b[i + 1] == rest[0];
        }
      }
    }
  }

  /** A checklist block starts no heading, as long as what follows it is
      empty or starts a new line. */
  lemma NoHeaderInBullets(pre: string, items: seq<string>, post: string)
    requires forall k :: 0 <= k < |items| ==> NoBreak(items[k])
    requires post == [] || post[0] == '\n'
    ensures forall i :: |pre| <= i < |pre| + |Bullets(items)| ==> !At(pre + Bullets(items) + post, "\n## ", i)
  {
    var b := Bullets(items);
    var s := pre + b + post;
    BulletsBreaks(items);
    forall i | |pre| <= i < |pre| + |b| ensures !At(s, "\n## ", i)
    {
      var k := i - |pre|;
      assert s[i] == b[k];
      if k + 1 < |b| {
        assert s[i + 1] == b[k + 1];
      } else if post != [] {
        assert s[i + 1] == post[0];
      }
      NoHeader(s, i);
    }
  }

  /** A marker without a newline ends before the end of its line. */
  lemma MarkerBeforeLineEnd(text: string, m: string)
    requires '\n' !in m && MarkerLineEnds(text, m)
    ensures Find(text, m, 0) + |m| <= Find(text, "\n", Find(text, m, 0))
  {
    var idx := Find(text, m, 0);
    var nl := Find(text, "\n", idx);
    forall i | idx <= i < idx + |m| ensures text[i] != '\n'
    {
      assert text[i] == text[idx..idx + |m|][i - idx];
    }
    assert text[nl] == text[nl..nl + 1][0];
  }

  /** Where two texts agree up to `n`, `find` from `from` agrees when its
      answer `k` in the first ends by `n`. */
  lemma FindInCommonPrefix(text: string, r: string, n: nat, sub: string, from: nat)
    requires n <= |text| && n <= |r| && text[..n] == r[..n] && from <= |text| && from <= |r|
    requires Find(text, sub, from) >= 0 && Find(text, sub, from) + |sub| <= n
    ensures Find(r, sub, from) == Find(text, sub, from)
  {
    var k := Find(text, sub, from);
    forall i | from <= i < k ensures !At(r, sub, i)
    {
      AtInCommonPrefix(r, text, n, sub, i);
    }
    AtInCommonPrefix(r, text, n, sub, k);
    FindUnique(r, sub, from, k);
  }

  /** A text that keeps everything up to the end of the marker's line finds
      the marker, and the end of its line, where the original does. */
  lemma MarkerLineKept(text: string, r: string, m: string, idx: nat, nl: nat)
    requires '\n' !in m && MarkerLineEnds(text, m)
    requires idx == Find(text, m, 0) && nl == Find(text, "\n", idx)
    requires nl + 1 <= |r| && r[..nl + 1] == text[..nl + 1]
    ensures Find(r, m, 0) == idx && Find(r, "\n", idx) == nl
  {
    MarkerBeforeLineEnd(text, m);
    FindInCommonPrefix(text, r, nl + 1, m, 0);
    FindInCommonPrefix(text, r, nl + 1, "\n", idx);
  }

  /** After a checklist block, the next heading is the one that starts what
      follows the block, if anything does. */
  lemma HeadingAfterBullets(r: string, pre: string, items: seq<string>, post: string)
    requires forall k :: 0 <= k < |items| ==> NoBreak(items[k])
    requires post == [] || At(post, "\n## ", 0)
    requires r == pre + Bullets(items) + post
    ensures post == [] ==> Find(r, "\n## ", |pre|) == -1
    ensures post != [] ==> Find(r, "\n## ", |pre|) == |pre| + |Bullets(items)|
  {
    var stop := |pre| + |Bullets(items)|;
    if post != [] {
      assert post[0] == post[0..4][0];
    }
    NoHeaderInBullets(pre, items, post);
    if post != [] {
      assert r[stop..stop + 4] == post[0..4];
      FindUnique(r, "\n## ", |pre|, stop);
    } else {
      forall i | |pre| <= i <= |r| ensures !At(r, "\n## ", i)
      {
        if i >= stop {
          NoHeader(r, i);
        }
      }
      FindNone(r, "\n## ", |pre|);
    }
  }

  /** Where a found section's body starts, and what follows it. */
  lemma SectionEdges(text: string, m: string, b: Bounds)
    requires SectionBounds(text, m) == Some(b)
    ensures Contains(text, m) && b.start == Find(text, "\n", Find(text, m, 0)) + 1
    ensures text[b.end..] == [] || At(text[b.end..], "\n## ", 0)
  {
    if b.end < |text| {
      assert text[b.end..][0..4] == text[b.end..b.end + 4];
    }
  }

  /** The bounds `SectionBounds` reports from the three searches it makes. */
  lemma BoundsFromSearches(r: string, m: string, idx: nat, nl: nat, next: int)
    requires Find(r, m, 0) == idx && Find(r, "\n", idx) == nl && nl < |r|
    requires Find(r, "\n## ", nl + 1) == next
    ensures SectionBounds(r, m) == Some(Bounds(nl + 1, if next < 0 then |r| else next))
  {
  }

  lemma SplicePrefix(text: string, start: nat, body: string, post: string, n: nat)
    requires n <= start <= |text|
    ensures (text[..start] + body + post)[..n] == text[..n]
  {
  }

  /** A text that keeps the marker's line as it was reports its section
      starting where the original's did. */
  lemma BoundsAfterSplice(text: string, m: string, start: nat, r: string)
    requires '\n' !in m && MarkerLineEnds(text, m)
    requires start == Find(text, "\n", Find(text, m, 0)) + 1
    requires start <= |r| && r[..start] == text[..start]
    ensures SectionBounds(r, m).Some? && SectionBounds(r, m).value.start == start
    ensures var next := Find(r, "\n## ", start);
            SectionBounds(r, m).value.end == if next < 0 then |r| else next
  {
    var idx := Find(text, m, 0);
    var nl := Find(text, "\n", idx);
    MarkerLineKept(text, r, m, idx, nl);
    BoundsFromSearches(r, m, idx, nl, Find(r, "\n## ", nl + 1));
  }

  /** Replacing a section and then extracting it yields exactly the new
      block, starting where the old body started. */
  lemma ExtractAfterReplace(text: string, title: string, items: seq<string>)
    requires '\n' !in title && MarkerLineEnds(text, "## " + title)
    requires forall k :: 0 <= k < |items| ==> NoBreak(items[k])
    ensures ExtractSection(ReplaceSection(text, title, items), title).body == Bullets(items)
    ensures ExtractSection(ReplaceSection(text, title, items), title).start == ExtractSection(text, title).start
  {
    var m := "## " + title;
    var b := SectionBounds(text, m).value;
    var body := Bullets(items);
    var r := ReplaceSection(text, title, items);
    assert r == text[..b.start] + body + text[b.end..];
    SectionEdges(text, m, b);
    HeadingAfterBullets(r, text[..b.start], items, text[b.end..]);
    SplicePrefix(text, b.start, body, text[b.end..], b.start);
    BoundsAfterSplice(text, m, b.start, r);
    assert r[b.start..b.start + |body|] == body;
  }

  // ------------------------------------------------- journal_start: next steps

  /** The two placeholder lines a reset section holds. */
  const Placeholder := "- [ ] <TODO 1>\n- [ ] <TODO 2>\n"

  const Todos := ["<TODO 1>", "<TODO 2>"]

  lemma PlaceholderIsBullets()
    ensures Placeholder == Bullets(Todos)
  {
    var c := Checkboxes(Todos);
    assert c[0] == "- [ ] <TODO 1>" && c[1] == "- [ ] <TODO 2>";
    assert c[1..] == [c[1]] && c[1..][1..] == [];
    assert JoinLines(c[1..][1..]) == "";
    assert JoinLines(c[1..]) == c[1] + "\n";
    assert JoinLines(c) == c[0] + "\n" + (c[1] + "\n");
  }

  /** What `extract_next_steps` makes of one line: nothing, a step, or an
      `IndexError` (a `- [` line holding no `]`). */
  datatype Step = Skip | Keep(text: string) | Broken

  /** A step as `extract_next_steps` keeps it: trimmed, and neither a
      placeholder nor a carried-over line. */
  predicate CleanStep(t: string)
  {
    Trimmed(t) && !Contains(t, "<TODO") && !Contains(t, "carried forward")
  }

  function StepOf(line: string): (st: Step)
    ensures st.Keep? ==> CleanStep(st.text)
    ensures !StartsWith(Strip(line), "- [") ==> st.Skip?
  {
    var s := Strip(line);
    if !StartsWith(s, "- [") then Skip
    else if Contains(s, "<TODO") || Contains(s, "carried forward") then Skip
    else match SplitOnce(s, ']')
      case None => Broken
      case Some(p) =>
        var k := |p.0| + 1;
        assert s[k..] == p.1;
        SuffixStripKeepsOut(s, k, "<TODO");
        SuffixStripKeepsOut(s, k, "carried forward");
        StripIdempotent(p.1);
        Keep(Strip(p.1))
  }

  /** A string absent from `s` is absent from any stripped suffix of it. */
  lemma SuffixStripKeepsOut(s: string, k: nat, sub: string)
    requires k <= |s| && !Contains(s, sub)
    ensures !Contains(Strip(s[k..]), sub)
  {
    var t := s[k..];
    assert s[k..|s|] == t;
    if Contains(Strip(t), sub) {
      ContainsThroughStrip(t, sub);
      ContainedInSlice(s, k, |s|, sub);
    }
  }

  /** The steps of a block's lines, or None where a line is broken. */
  function StepsOf(lines: seq<string>): (r: Option<seq<string>>)
    ensures r.Some? ==> |r.value| <= |lines|
  {
    if |lines| == 0 then Some([])
    else
      var rest := StepsOf(lines[1..]);
      match StepOf(lines[0])
      case Broken => None
      case Skip => rest
      case Keep(t) => if rest.None? then None else Some([t] + rest.value)
  }

  lemma ConsClean(t: string, rest: seq<string>)
    requires CleanStep(t) && forall k :: 0 <= k < |rest| ==> CleanStep(rest[k])
    ensures forall k :: 0 <= k < |[t] + rest| ==> CleanStep(([t] + rest)[k])
  {
    forall k | 0 < k < |[t] + rest| ensures CleanStep(([t] + rest)[k])
    {
      assert ([t] + rest)[k] == rest[k - 1];
    }
  }

  /** Every step is trimmed and holds neither `<TODO` nor `carried
      forward`. */
  lemma {:induction false} StepsClean(lines: seq<string>)
    ensures StepsOf(lines).Some? ==> forall k :: 0 <= k < |StepsOf(lines).value| ==> CleanStep(StepsOf(lines).value[k])
    decreases |lines|
  {
    if |lines| > 0 {
      StepsClean(lines[1..]);
      StepsFrom(lines, 0);
      assert lines[0..] == lines;
      var st := StepOf(lines[0]);
      if st.Keep? && StepsOf(lines[1..]).Some? {
        ConsClean(st.text, StepsOf(lines[1..]).value);
      }
    }
  }

  /** A block without a broken line always yields its steps. */
  lemma {:induction false} StepsTotal(lines: seq<string>)
    requires forall k :: 0 <= k < |lines| ==> !StepOf(lines[k]).Broken?
    ensures StepsOf(lines).Some?
    decreases |lines|
  {
    if |lines| > 0 {
      assert forall k :: 1 <= k < |lines| ==> lines[1..][k - 1] == lines[k];
      StepsTotal(lines[1..]);
    }
  }

  /** The heading journal_start.py looks for; `## Next Steps (for tomorrow)`
      starts with it. */
  const StepsTitle := "Next Steps"

  /** The Next Steps of a journal, as `extract_next_steps` reads them. */
  function NextSteps(text: string): Option<seq<string>>
  {
    StepsOf(SplitLines(ExtractSection(text, StepsTitle).body))
  }

  /** `Some(steps + rest)`, or None when `rest` is None. */
  function Prefixed(steps: seq<string>, rest: Option<seq<string>>): Option<seq<string>>
  {
    if rest.None? then None else Some(steps + rest.value)
  }

  /** One step of `StepsOf` from line `i` on. */
  lemma StepsFrom(lines: seq<string>, i: nat)
    requires i < |lines|
    ensures StepOf(lines[i]).Broken? ==> StepsOf(lines[i..]) == None
    ensures StepOf(lines[i]).Skip? ==> StepsOf(lines[i..]) == StepsOf(lines[i + 1..])
    ensures StepOf(lines[i]).Keep? ==>
              StepsOf(lines[i..]) == Prefixed([StepOf(lines[i]).text], StepsOf(lines[i + 1..]))
  {
    var rest := lines[i..];
    assert rest[0] == lines[i] && rest[1..] == lines[i + 1..];
  }

  lemma PrefixedAppend(steps: seq<string>, t: string, later: Option<seq<string>>)
    ensures Prefixed(steps, Prefixed([t], later)) == Prefixed(steps + [t], later)
  {
    if later.Some? {
      assert steps + ([t] + later.value) == (steps + [t]) + later.value;
    }
  }

  /** The loop of `extract_next_steps` over the section's lines. */
  method ReadSteps(lines: seq<string>) returns (r: Option<seq<string>>)
    ensures r == StepsOf(lines)
  {
    var steps: seq<string> := [];
    var i := 0;
    assert lines[0..] == lines;
    assert StepsOf(lines).Some? ==> [] + StepsOf(lines).value == StepsOf(lines).value;
    while i < |lines|
      invariant 0 <= i <= |lines|
      invariant StepsOf(lines) == Prefixed(steps, StepsOf(lines[i..]))
    {
      StepsFrom(lines, i);
      var st := StepOf(lines[i]);
      if st.Broken? {
        assert StepsOf(lines) == None;
        return None;
      } else if st.Keep? {
        PrefixedAppend(steps, st.text, StepsOf(lines[i + 1..]));
        steps := steps + [st.text];
      }
      i := i + 1;
    }
    assert lines[i..] == [];
    assert StepsOf(lines[i..]) == Some([]);
    assert steps + [] == steps;
    r := Some(steps);
  }

  /** A journal without the heading has no steps to carry. */
  lemma NoNextSteps(text: string)
    requires !Contains(text, "## " + StepsTitle)
    ensures NextSteps(text) == Some([])
  {
    assert SplitLines("") == [];
  }

  /** `extract_next_steps`: the section's body, read line by line. */
  method ExtractNextSteps(text: string) returns (r: Option<seq<string>>)
    ensures r == NextSteps(text)
    ensures !Contains(text, "## " + StepsTitle) ==> r == Some([])
  {
    var section := ExtractSection(text, StepsTitle);
    r := ReadSteps(SplitLines(section.body));
    if !Contains(text, "## " + StepsTitle) {
      NoNextSteps(text);
    }
  }

  /** The placeholder lines yield no step. */
  lemma TodoLinesSkipped(item: string)
    requires item in Todos
    ensures StepOf("- [ ] " + item) == Skip
  {
    var line := "- [ ] " + item;
    StripPadding([], line, []);
    assert [] + line + [] == line;
    assert line[6..6 + 5] == "<TODO";
    assert At(line, "<TODO", 6);
  }

  /** `reset_next_steps`: the Next Steps body becomes the placeholder; None
      when there is no such section and the file is left alone. */
  function ResetNextSteps(text: string): (r: Option<string>)
    ensures r.None? <==> !Contains(text, "## " + StepsTitle)
  {
    match SectionBounds(text, "## " + StepsTitle)
    case None => None
    case Some(b) => Some(text[..b.start] + Placeholder + text[b.end..])
  }

  /** The placeholder block holds no step. */
  lemma PlaceholderSteps()
    ensures StepsOf(SplitLines(Bullets(Todos))) == Some([])
  {
    var lines := Checkboxes(Todos);
    SplitLinesJoin(lines);
    TodoLinesSkipped(Todos[0]);
    TodoLinesSkipped(Todos[1]);
    assert lines[1..][1..] == [];
    assert StepsOf(lines[1..][1..]) == Some([]);
    assert StepsOf(lines[1..]) == Some([]);
  }

  lemma TodosOneLine()
    ensures forall k :: 0 <= k < |Todos| ==> NoBreak(Todos[k])
  {
    assert NoBreak(Todos[0]);
    assert NoBreak(Todos[1]);
  }

  /** The headings the journal scripts look for are single lines. */
  lemma TitlesOneLine()
    ensures '\n' !in StepsTitle && '\n' !in NextTitle
  {
  }

  /** The reset is `replace_section` with the two placeholders. */
  lemma ResetIsReplace(text: string)
    ensures ResetNextSteps(text).Some? ==>
              ResetNextSteps(text).value == ReplaceSection(text, StepsTitle, Todos)
  {
    PlaceholderIsBullets();
  }

  /** A reset journal has no next steps left to carry. */
  lemma ResetClearsSteps(text: string)
    requires MarkerLineEnds(text, "## " + StepsTitle)
    ensures ResetNextSteps(text).Some?
    ensures NextSteps(ResetNextSteps(text).value) == Some([])
  {
    ResetIsReplace(text);
    PlaceholderSteps();
    TodosOneLine();
    TitlesOneLine();
    StepsAfterReplace(text, StepsTitle, Todos);
  }

  /** After `replace_section` the section reads as the new block. */
  lemma StepsAfterReplace(text: string, title: string, items: seq<string>)
    requires '\n' !in title && MarkerLineEnds(text, "## " + title)
    requires forall k :: 0 <= k < |items| ==> NoBreak(items[k])
    ensures StepsOf(SplitLines(ExtractSection(ReplaceSection(text, title, items), title).body))
         == StepsOf(SplitLines(Bullets(items)))
  {
    ExtractAfterReplace(text, title, items);
  }

  // --------------------------------------------------------- previous journal

  /** The stems the glob `20??-??-??.md` admits. */
  predicate JournalStem(name: string)
  {
    |name| == 10 && name[0] == '2' && name[1] == '0' && name[4] == '-' && name[7] == '-'
  }

  /** The two characters `%m` reads here: `1[0-2]` or `0[1-9]` (a lone
      digit would leave `%d` facing the second dash). */
  predicate MonthField(m: string)
    requires |m| == 2
  {
    (m[0] == '1' && '0' <= m[1] <= '2') || (m[0] == '0' && '1' <= m[1] <= '9')
  }

  /** The two characters `%d` reads here: `3[01]`, `[12]\d`, `0[1-9]` or
      ` [1-9]` (a lone digit would leave data unconverted). */
  predicate DayField(d: string)
    requires |d| == 2
  {
    (d[0] == '3' && (d[1] == '0' || d[1] == '1'))
    || ((d[0] == '1' || d[0] == '2') && IsAsciiDigit(d[1]))
    || (d[0] == '0' && '1' <= d[1] <= '9')
    || (d[0] == ' ' && '1' <= d[1] <= '9')
  }

  /** `datetime.strptime(stem, "%Y-%m-%d").date()` for a journal stem; None
      for the `ValueError` cases. */
  function StemDate(name: string): (d: Option<Date>)
    requires JournalStem(name)
    ensures d.Some? ==> ValidDate(d.value) && 2000 <= d.value.year <= 2099
  {
    var month := name[5..7];
    var day := name[8..];
    if IsAsciiDigit(name[2]) && IsAsciiDigit(name[3]) && MonthField(month) && DayField(day) then
      var d := Date(2000 + 10 * DigitValue(name[2]) + DigitValue(name[3]),
                    Number(month),
                    if day[0] == ' ' then DigitValue(day[1]) else Number(day));
      if ValidDate(d) then Some(d) else None
    else None
  }

  /** A two-digit month reads back through `%m`. */
  lemma MonthFieldPadded(month: int)
    requires 1 <= month <= 12
    ensures MonthField(Padded(month, 2)) && Number(Padded(month, 2)) == month
  {
    assert Power10(2) == 100;
    PaddedNumber(month, 2);
  }

  /** A two-digit day reads back through `%d`. */
  lemma DayFieldPadded(day: int)
    requires 1 <= day <= 31
    ensures DayField(Padded(day, 2)) && Number(Padded(day, 2)) == day
  {
    assert Power10(2) == 100;
    PaddedNumber(day, 2);
  }

  /** The last two digits of a year of this century, as `%Y` writes them. */
  lemma CenturyDigits(year: int)
    requires 2000 <= year <= 2099
    ensures var p := Padded(year, 4);
            p[0] == '2' && p[1] == '0' && IsAsciiDigit(p[2]) && IsAsciiDigit(p[3]) &&
            2000 + 10 * DigitValue(p[2]) + DigitValue(p[3]) == year
  {
    var y := year - 2000;
    assert Padded(year, 4) == Padded(year / 100, 2) + [DigitFor((year / 10) % 10), DigitFor(year % 10)];
    assert year / 100 == 20;
    assert (year / 10) % 10 == y / 10 && year % 10 == y % 10;
  }

  /** The name of a journal's file reads back as its date. */
  lemma StemOfFormat(d: Date)
    requires ValidDate(d) && 2000 <= d.year <= 2099
    ensures JournalStem(FormatIso(d)) && StemDate(FormatIso(d)) == Some(d)
  {
    var s := FormatIso(d);
    assert s[..4] == Padded(d.year, 4);
    assert s[5..7] == Padded(d.month, 2);
    assert s[8..] == Padded(d.day, 2);
    assert s[2] == s[..4][2] && s[3] == s[..4][3] && s[0] == s[..4][0] && s[1] == s[..4][1];
    CenturyDigits(d.year);
    MonthFieldPadded(d.month);
    DayFieldPadded(d.day);
  }

  predicate Qualifies(name: string, target: Date)
    requires JournalStem(name)
  {
    StemDate(name).Some? && Earlier(StemDate(name).value, target)
  }

  /** The position of the last candidate dated strictly before `target`. */
  function LastBefore(candidates: seq<string>, target: Date): (r: Option<nat>)
    requires forall k :: 0 <= k < |candidates| ==> JournalStem(candidates[k])
    ensures r.Some? ==> r.value < |candidates| && Qualifies(candidates[r.value], target)
    ensures r.Some? ==> forall k :: r.value < k < |candidates| ==> !Qualifies(candidates[k], target)
    ensures r.None? ==> forall k :: 0 <= k < |candidates| ==> !Qualifies(candidates[k], target)
  {
    if |candidates| == 0 then None
    else if Qualifies(candidates[|candidates| - 1], target) then Some(|candidates| - 1)
    else LastBefore(candidates[..|candidates| - 1], target)
  }

  /** `get_previous_journal` over the sorted candidate stems: walking them
      from the end, the first one dated before `target`. */
  method GetPreviousJournal(candidates: seq<string>, target: Date) returns (r: Option<string>)
    requires forall k :: 0 <= k < |candidates| ==> JournalStem(candidates[k])
    ensures r.None? <==> LastBefore(candidates, target).None?
    ensures r.Some? ==> r.value == candidates[LastBefore(candidates, target).value]
  {
    var i := |candidates|;
    while i > 0
      invariant 0 <= i <= |candidates|
      invariant LastBefore(candidates, target) == LastBefore(candidates[..i], target)
    {
      i := i - 1;
      assert candidates[..i + 1][..i] == candidates[..i];
      if Qualifies(candidates[i], target) {
        return Some(candidates[i]);
      }
    }
    return None;
  }

  /** `read_template`: every `<YYYY-MM-DD>` becomes the date. */
  function FillTemplate(template: string, d: Date): (r: string)
    requires ValidDate(d)
    ensures !Contains(template, "<YYYY-MM-DD>") ==> r == template
  {
    Replace(template, "<YYYY-MM-DD>", FormatIso(d))
  }

  /** A template with one placeholder, and no `<` before it, gets the date
      in its place. */
  lemma FillOnePlaceholder(a: string, b: string, d: Date)
    requires ValidDate(d) && '<' !in a && !Contains(b, "<YYYY-MM-DD>")
    ensures FillTemplate(a + "<YYYY-MM-DD>" + b, d) == a + FormatIso(d) + b
  {
    var pat := "<YYYY-MM-DD>";
    assert a + pat + b == a + (pat + b);
    ReplaceSkips(a, pat + b, pat, FormatIso(d));
    ReplaceFront(pat, b, FormatIso(d));
  }

  // ---------------------------------------------------- journal_end: tasks

  /** One parsed task: status character, text, original line. */
  datatype Task = Task(status: char, text: string, line: string)

  /** What `parse_tasks` makes of one line: nothing, a task, or an
      `IndexError` (`- [` alone, or no `]`). */
  datatype Parsed = NotTask | IsTask(task: Task) | Crash

  function TaskOf(line: string): (p: Parsed)
    ensures p.NotTask? <==> !StartsWith(Strip(line), "- [")
    ensures p.IsTask? ==> p.task.line == line && 3 < |Strip(line)| && p.task.status == Strip(line)[3]
    ensures p.IsTask? ==> Trimmed(p.task.text)
    ensures p.IsTask? && NoBreak(line) ==> NoBreak(p.task.text)
  {
    var s := Strip(line);
    if !StartsWith(s, "- [") then NotTask
    else if |s| == 3 then Crash
    else match SplitOnce(s, ']')
      case None => Crash
      case Some(p) =>
        var k := |p.0| + 1;
        assert s[k..] == p.1;
        StripIdempotent(p.1);
        StrippedSuffixNoBreak(line, k);
        IsTask(Task(s[3], Strip(p.1), line))
  }

  /** A stripped suffix of a stripped single line is a single line. */
  lemma StrippedSuffixNoBreak(line: string, k: nat)
    requires k <= |Strip(line)|
    ensures NoBreak(line) ==> NoBreak(Strip(Strip(line)[k..]))
  {
    if NoBreak(line) {
      NoBreakStrip(line);
      NoBreakStrip(Strip(line)[k..]);
    }
  }

  /** The tasks of a block's lines, in order, or None where a line crashes. */
  function TasksOf(lines: seq<string>): (r: Option<seq<Task>>)
    ensures r.Some? ==> |r.value| <= |lines|
  {
    if |lines| == 0 then Some([])
    else
      var rest := TasksOf(lines[1..]);
      match TaskOf(lines[0])
      case Crash => None
      case NotTask => rest
      case IsTask(t) => if rest.None? then None else Some([t] + rest.value)
  }

  /** Every task text is trimmed. */
  lemma {:induction false} TasksTrimmed(lines: seq<string>)
    ensures TasksOf(lines).Some? ==> forall k :: 0 <= k < |TasksOf(lines).value| ==> Trimmed(TasksOf(lines).value[k].text)
    decreases |lines|
  {
    if |lines| > 0 {
      TasksTrimmed(lines[1..]);
      var p := TaskOf(lines[0]);
      var rest := TasksOf(lines[1..]);
      if p.IsTask? && rest.Some? {
        var v := TasksOf(lines).value;
        assert v == [p.task] + rest.value;
        forall k | 0 <= k < |v| ensures Trimmed(v[k].text)
        {
          if k > 0 {
            assert v[k] == rest.value[k - 1];
          }
        }
      }
    }
  }

  /** The tasks of single lines have single-line texts. */
  lemma {:induction false} TasksOneLine(lines: seq<string>)
    requires forall k :: 0 <= k < |lines| ==> NoBreak(lines[k])
    ensures TasksOf(lines).Some? ==> forall k :: 0 <= k < |TasksOf(lines).value| ==> NoBreak(TasksOf(lines).value[k].text)
    decreases |lines|
  {
    if |lines| > 0 {
      var tail := lines[1..];
      forall k | 0 <= k < |tail| ensures NoBreak(tail[k]) {
        assert tail[k] == lines[k + 1];
      }
      TasksOneLine(tail);
      var p := TaskOf(lines[0]);
      var rest := TasksOf(tail);
      if p.IsTask? && rest.Some? {
        assert TasksOf(lines).value == [p.task] + rest.value;
        assert NoBreak(lines[0]);
        OneLineCons(p.task, rest.value);
      }
    }
  }

  lemma OneLineCons(t: Task, rest: seq<Task>)
    requires NoBreak(t.text) && forall k :: 0 <= k < |rest| ==> NoBreak(rest[k].text)
    ensures forall k :: 0 <= k < |[t] + rest| ==> NoBreak(([t] + rest)[k].text)
  {
    var v := [t] + rest;
    forall k | 0 <= k < |v| ensures NoBreak(v[k].text)
    {
      if k > 0 {
        assert v[k] == rest[k - 1];
      }
    }
  }

  /** A block without a crashing line always yields its tasks. */
  lemma {:induction false} TasksTotal(lines: seq<string>)
    requires forall k :: 0 <= k < |lines| ==> !TaskOf(lines[k]).Crash?
    ensures TasksOf(lines).Some?
    decreases |lines|
  {
    if |lines| > 0 {
      assert forall k :: 0 <= k < |lines[1..]| ==> lines[1..][k] == lines[k + 1];
      assert !TaskOf(lines[0]).Crash?;
      TasksTotal(lines[1..]);
    }
  }

  function PrefixedTasks(tasks: seq<Task>, rest: Option<seq<Task>>): Option<seq<Task>>
  {
    if rest.None? then None else Some(tasks + rest.value)
  }

  /** One step of `TasksOf` from line `i` on. */
  lemma TasksFrom(lines: seq<string>, i: nat)
    requires i < |lines|
    ensures TaskOf(lines[i]).Crash? ==> TasksOf(lines[i..]) == None
    ensures TaskOf(lines[i]).NotTask? ==> TasksOf(lines[i..]) == TasksOf(lines[i + 1..])
    ensures TaskOf(lines[i]).IsTask? ==>
              TasksOf(lines[i..]) == PrefixedTasks([TaskOf(lines[i]).task], TasksOf(lines[i + 1..]))
  {
    var rest := lines[i..];
    assert rest[0] == lines[i] && rest[1..] == lines[i + 1..];
  }

  lemma PrefixedTasksAppend(tasks: seq<Task>, t: Task, later: Option<seq<Task>>)
    ensures PrefixedTasks(tasks, PrefixedTasks([t], later)) == PrefixedTasks(tasks + [t], later)
  {
    if later.Some? {
      assert tasks + ([t] + later.value) == (tasks + [t]) + later.value;
    }
  }

  /** `parse_tasks`: the loop over the block's lines. */
  method ParseTasks(block: string) returns (r: Option<seq<Task>>)
    ensures r == TasksOf(SplitLines(block))
  {
    var lines := SplitLines(block);
    var tasks: seq<Task> := [];
    var i := 0;
    assert lines[0..] == lines;
    assert TasksOf(lines).Some? ==> [] + TasksOf(lines).value == TasksOf(lines).value;
    while i < |lines|
      invariant 0 <= i <= |lines|
      invariant TasksOf(lines) == PrefixedTasks(tasks, TasksOf(lines[i..]))
    {
      TasksFrom(lines, i);
      var p := TaskOf(lines[i]);
      if p.Crash? {
        assert TasksOf(lines) == None;
        return None;
      } else if p.IsTask? {
        PrefixedTasksAppend(tasks, p.task, TasksOf(lines[i + 1..]));
        tasks := tasks + [p.task];
      }
      i := i + 1;
    }
    assert lines[i..] == [];
    assert TasksOf(lines[i..]) == Some([]);
    assert tasks + [] == tasks;
    r := Some(tasks);
  }

  /** The stripped form of a checkbox line of a trimmed item. */
  lemma StripCheckbox(item: string)
    requires Trimmed(item)
    ensures Strip("- [ ] " + item) == if |item| == 0 then "- [ ]" else "- [ ] " + item
  {
    var line := "- [ ] " + item;
    if |item| == 0 {
      assert [] + "- [ ]" + " " == line;
      StripPadding([], "- [ ]", " ");
    } else {
      assert line[|line| - 1] == item[|item| - 1];
      assert [] + line + [] == line;
      StripPadding([], line, []);
    }
  }

  /** What follows the `]` of the stripped checklist line of `item`. */
  function CheckboxTail(item: string): string
  {
    if |item| == 0 then "" else " " + item
  }

  /** The stripped checklist line of a trimmed item, around its `]`. */
  lemma CheckboxStripped(item: string)
    requires Trimmed(item)
    ensures Strip("- [ ] " + item) == "- [ " + [']'] + CheckboxTail(item)
  {
    StripCheckbox(item);
  }

  /** The stripped checklist line of a trimmed item splits at its `]`. */
  lemma CheckboxSplit(item: string)
    requires Trimmed(item)
    ensures var s := Strip("- [ ] " + item);
            StartsWith(s, "- [") && |s| > 3 && s[3] == ' ' &&
            SplitOnce(s, ']') == Some(("- [ ", CheckboxTail(item)))
  {
    var head := "- [ ";
    CheckboxStripped(item);
    assert ']' !in head;
    SplitOnceAt(head, ']', CheckboxTail(item));
    var s := head + [']'] + CheckboxTail(item);
    assert s[..3] == head[..3];
  }

  lemma CheckboxTailStrip(item: string)
    requires Trimmed(item)
    ensures Strip(CheckboxTail(item)) == item
  {
    if |item| == 0 {
      assert [] + [] + [] == CheckboxTail(item);
      StripPadding([], [], []);
    } else {
      assert " " + item + [] == CheckboxTail(item);
      StripPadding(" ", item, []);
    }
  }

  /** A checklist line of a trimmed item parses back as that unchecked item. */
  lemma TaskOfCheckbox(item: string)
    requires Trimmed(item)
    ensures TaskOf("- [ ] " + item) == IsTask(Task(' ', item, "- [ ] " + item))
  {
    CheckboxSplit(item);
    CheckboxTailStrip(item);
  }

  function Texts(tasks: seq<Task>): (texts: seq<string>)
    ensures |texts| == |tasks| && forall k :: 0 <= k < |tasks| ==> texts[k] == tasks[k].text
  {
    seq(|tasks|, k requires 0 <= k < |tasks| => tasks[k].text)
  }

  function TextSet(tasks: seq<Task>): set<string>
  {
    set k | 0 <= k < |tasks| :: tasks[k].text
  }

  /** Unchecked checklist tasks, one per item. */
  function Unchecked(items: seq<string>): (tasks: seq<Task>)
    ensures Texts(tasks) == items
  {
    var tasks := seq(|items|, k requires 0 <= k < |items| => Task(' ', items[k], "- [ ] " + items[k]));
    assert Texts(tasks) == items;
    tasks
  }

  /** A checklist block of trimmed one-line items parses back as exactly
      those items, unchecked. */
  lemma {:induction false} TasksOfCheckboxes(items: seq<string>)
    requires forall k :: 0 <= k < |items| ==> Trimmed(items[k])
    ensures TasksOf(Checkboxes(items)) == Some(Unchecked(items))
    decreases |items|
  {
    if |items| > 0 {
      var c := Checkboxes(items);
      var t := Task(' ', items[0], "- [ ] " + items[0]);
      assert c[1..] == Checkboxes(items[1..]);
      assert TaskOf(c[0]) == IsTask(t) by {
        TaskOfCheckbox(items[0]);
      }
      assert TasksOf(c[1..]) == Some(Unchecked(items[1..])) by {
        assert forall k :: 0 <= k < |items[1..]| ==> items[1..][k] == items[k + 1];
        TasksOfCheckboxes(items[1..]);
      }
      UncheckedCons(items);
    }
  }

  lemma UncheckedCons(items: seq<string>)
    requires |items| > 0
    ensures Unchecked(items) == [Task(' ', items[0], "- [ ] " + items[0])] + Unchecked(items[1..])
  {
    var u := Unchecked(items);
    var w := [Task(' ', items[0], "- [ ] " + items[0])] + Unchecked(items[1..]);
    assert |u| == |w|;
    forall k | 0 <= k < |u| ensures u[k] == w[k]
    {
      if k > 0 {
        assert w[k] == Unchecked(items[1..])[k - 1];
      }
    }
  }

  /** `[t for t in tasks if '<TODO' not in t[1]]`. */
  function WithoutTodo(tasks: seq<Task>): (kept: seq<Task>)
    ensures |kept| <= |tasks|
    ensures forall k :: 0 <= k < |kept| ==> kept[k] in tasks && !Contains(kept[k].text, "<TODO")
    ensures forall k :: 0 <= k < |tasks| && !Contains(tasks[k].text, "<TODO") ==> tasks[k] in kept
  {
    if |tasks| == 0 then []
    else
      var rest := WithoutTodo(tasks[1..]);
      assert forall k :: 1 <= k < |tasks| ==> tasks[k] == tasks[1..][k - 1];
      if Contains(tasks[0].text, "<TODO") then rest else [tasks[0]] + rest
  }

  /** The unchecked focus tasks whose text is not yet in `seen`, each text
      once, in order: the tasks the carry-over loop appends. */
  function Carried(focus: seq<Task>, seen: set<string>): (carried: seq<Task>)
    ensures |carried| <= |focus|
  {
    if |focus| == 0 then []
    else
      var t := focus[0];
      if t.status == ' ' && t.text !in seen then [t] + Carried(focus[1..], seen + {t.text})
      else Carried(focus[1..], seen)
  }

  /** Carried tasks are unchecked focus tasks with new texts, no two alike. */
  lemma {:induction false} CarriedFresh(focus: seq<Task>, seen: set<string>)
    ensures forall k :: 0 <= k < |Carried(focus, seen)| ==>
              Carried(focus, seen)[k] in focus && Carried(focus, seen)[k].status == ' '
              && Carried(focus, seen)[k].text !in seen
    ensures forall k, l :: 0 <= k < l < |Carried(focus, seen)| ==>
              Carried(focus, seen)[k].text != Carried(focus, seen)[l].text
    decreases |focus|
  {
    if |focus| > 0 {
      var t := focus[0];
      CarriedFresh(focus[1..], seen + {t.text});
      CarriedFresh(focus[1..], seen);
    }
  }

  /** Every unchecked focus task's text ends up seen or carried. */
  lemma {:induction false} CarriedComplete(focus: seq<Task>, seen: set<string>)
    ensures forall k :: 0 <= k < |focus| && focus[k].status == ' ' ==>
              focus[k].text in seen || focus[k].text in Texts(Carried(focus, seen))
    decreases |focus|
  {
    if |focus| > 0 {
      var t := focus[0];
      var seen' := if t.status == ' ' && t.text !in seen then seen + {t.text} else seen;
      var c := Carried(focus, seen);
      var c1 := Carried(focus[1..], seen');
      if t.status == ' ' && t.text !in seen {
        assert c == [t] + c1;
        assert Texts(c) == [t.text] + Texts(c1);
      } else {
        assert c == c1;
      }
      CarriedComplete(focus[1..], seen');
      forall k | 1 <= k < |focus| && focus[k].status == ' '
        ensures focus[k].text in seen || focus[k].text in Texts(c)
      {
        assert focus[k] == focus[1..][k - 1];
      }
    }
  }

  /** The carry-over loop of journal_end.py's `main`: appends the unchecked,
      not yet listed focus tasks to the next tasks, and lists their texts. */
  method CarryOver(focus: seq<Task>, next: seq<Task>) returns (merged: seq<Task>, carried: seq<string>)
    ensures merged == next + Carried(focus, TextSet(next))
    ensures carried == Texts(Carried(focus, TextSet(next)))
  {
    merged := next;
    carried := [];
    var seen := TextSet(next);
    for k := 0 to |focus|
      invariant merged + Carried(focus[k..], seen) == next + Carried(focus, TextSet(next))
      invariant carried + Texts(Carried(focus[k..], seen)) == Texts(Carried(focus, TextSet(next)))
    {
      var t := focus[k];
      CarriedFrom(focus, k, seen);
      if t.status == ' ' && t.text !in seen {
        merged := merged + [t];
        seen := seen + {t.text};
        carried := carried + [t.text];
      }
    }
    assert focus[|focus|..] == [];
  }

  /** One step of `Carried` from task `k` on. */
  lemma CarriedFrom(focus: seq<Task>, k: nat, seen: set<string>)
    requires k < |focus|
    ensures var t := focus[k];
            if t.status == ' ' && t.text !in seen then
              Carried(focus[k..], seen) == [t] + Carried(focus[k + 1..], seen + {t.text}) &&
              Texts(Carried(focus[k..], seen)) == [t.text] + Texts(Carried(focus[k + 1..], seen + {t.text}))
            else Carried(focus[k..], seen) == Carried(focus[k + 1..], seen)
  {
    assert focus[k..][0] == focus[k] && focus[k..][1..] == focus[k + 1..];
    var t := focus[k];
    if t.status == ' ' && t.text !in seen {
      var rest := Carried(focus[k + 1..], seen + {t.text});
      assert Texts([t] + rest) == [t.text] + Texts(rest);
    }
  }

  /** What the end-of-day run leaves: the new text, whether the file is
      rewritten, and the carried texts. */
  datatype Wrap = Wrap(text: string, write: bool, carried: seq<string>)

  /** `text[:i]` / `text[i:]` cut position, negative indices counting from the end. */
  function Cut(text: string, i: int): (k: nat)
    ensures k <= |text|
    ensures 0 <= i <= |text| ==> k == i
  {
    if i < 0 then (if |text| + i < 0 then 0 else |text| + i)
    else if i > |text| then |text| else i
  }

  /** The next tasks without placeholders, then the carried focus tasks. */
  function Merged(focus: seq<Task>, next: seq<Task>): (merged: seq<Task>)
    ensures forall k :: 0 <= k < |merged| ==>
              (merged[k] in next && !Contains(merged[k].text, "<TODO"))
              || (merged[k] in focus && merged[k].status == ' ' && merged[k].text !in TextSet(WithoutTodo(next)))
    ensures forall k :: 0 <= k < |next| && !Contains(next[k].text, "<TODO") ==> next[k] in merged
  {
    var kept := WithoutTodo(next);
    var carried := Carried(focus, TextSet(kept));
    CarriedFresh(focus, TextSet(kept));
    assert forall k :: 0 <= k < |kept| ==> (kept + carried)[k] == kept[k];
    assert forall k :: |kept| <= k < |kept| + |carried| ==> (kept + carried)[k] == carried[k - |kept|];
    kept + carried
  }

  /** The items of the new Next Steps body: the merged texts, or the two
      placeholders when there are none. */
  function NextItems(merged: seq<Task>): seq<string>
  {
    if |merged| > 0 then Texts(merged) else Todos
  }

  const FocusTitle := "Focus for Today"
  const NextTitle := "Next Steps (for tomorrow)"

  /** The tasks of a titled section, as `parse_tasks` reads them. */
  function SectionTasks(text: string, title: string): Option<seq<Task>>
  {
    TasksOf(SplitLines(ExtractSection(text, title).body))
  }

  /** The end-of-day rewrite of journal_end.py's `main` on the journal's
      text; None where `parse_tasks` raises. */
  function WrapUp(text: string): (w: Option<Wrap>)
    ensures w.None? <==> SectionTasks(text, FocusTitle).None? || SectionTasks(text, NextTitle).None?
    ensures w.Some? ==> w.value.write == (w.value.text != text)
    ensures w.Some? ==> |w.value.carried| <= |SectionTasks(text, FocusTitle).value|
  {
    var f := SectionTasks(text, FocusTitle);
    var n := SectionTasks(text, NextTitle);
    if f.None? || n.None? then None
    else
      var next := ExtractSection(text, NextTitle);
      var carried := Carried(f.value, TextSet(WithoutTodo(n.value)));
      var newText := text[..Cut(text, next.start)] + Bullets(NextItems(Merged(f.value, n.value)))
                     + text[Cut(text, next.end)..];
      Some(Wrap(newText, newText != text, Texts(carried)))
  }

  /** journal_end.py's `main` after reading the file. */
  method EndOfDay(text: string) returns (r: Option<Wrap>)
    ensures r == WrapUp(text)
  {
    var f := ParseTasks(ExtractSection(text, FocusTitle).body);
    var next := ExtractSection(text, NextTitle);
    var n := ParseTasks(next.body);
    if f.None? || n.None? {
      return None;
    }
    var merged, carried := CarryOver(f.value, WithoutTodo(n.value));
    var body;
    if |merged| > 0 {
      body := Bullets(Texts(merged));
    } else {
      body := Placeholder;
      PlaceholderIsBullets();
    }
    var newText := text[..Cut(text, next.start)] + body + text[Cut(text, next.end)..];
    r := Some(Wrap(newText, newText != text, carried));
    WrapUpFromParts(text, f.value, n.value, merged, carried, body);
  }

  /** `WrapUp` assembled from the parts `main` computes one after another. */
  lemma WrapUpFromParts(text: string, f: seq<Task>, n: seq<Task>, merged: seq<Task>, carried: seq<string>, body: string)
    requires SectionTasks(text, FocusTitle) == Some(f) && SectionTasks(text, NextTitle) == Some(n)
    requires merged == Merged(f, n) && carried == Texts(Carried(f, TextSet(WithoutTodo(n))))
    requires body == Bullets(NextItems(merged))
    ensures var next := ExtractSection(text, NextTitle);
            var newText := text[..Cut(text, next.start)] + body + text[Cut(text, next.end)..];
            WrapUp(text) == Some(Wrap(newText, newText != text, carried))
  {
  }

  lemma TodosClean()
    ensures forall k :: 0 <= k < |Todos| ==> Trimmed(Todos[k]) && NoBreak(Todos[k])
  {
    TodosOneLine();
    assert Trimmed(Todos[0]) && Trimmed(Todos[1]);
  }

  /** Every merged task has a trimmed single-line text when the tasks it
      comes from do. */
  lemma MergedClean(focus: seq<Task>, next: seq<Task>)
    requires forall k :: 0 <= k < |focus| ==> Trimmed(focus[k].text) && NoBreak(focus[k].text)
    requires forall k :: 0 <= k < |next| ==> Trimmed(next[k].text) && NoBreak(next[k].text)
    ensures forall k :: 0 <= k < |Merged(focus, next)| ==>
              Trimmed(Merged(focus, next)[k].text) && NoBreak(Merged(focus, next)[k].text)
  {
    var kept := WithoutTodo(next);
    var carried := Carried(focus, TextSet(kept));
    var merged := kept + carried;
    CarriedFresh(focus, TextSet(kept));
    forall k | 0 <= k < |merged| ensures Trimmed(merged[k].text) && NoBreak(merged[k].text)
    {
      if k < |kept| {
        assert merged[k] == kept[k];
        assert kept[k] in next;
      } else {
        assert merged[k] == carried[k - |kept|];
      }
    }
  }

  /** Every merged item is a trimmed single line when the tasks it comes
      from are. */
  lemma MergedItemsClean(focus: seq<Task>, next: seq<Task>)
    requires forall k :: 0 <= k < |focus| ==> Trimmed(focus[k].text) && NoBreak(focus[k].text)
    requires forall k :: 0 <= k < |next| ==> Trimmed(next[k].text) && NoBreak(next[k].text)
    ensures forall k :: 0 <= k < |NextItems(Merged(focus, next))| ==>
              Trimmed(NextItems(Merged(focus, next))[k]) && NoBreak(NextItems(Merged(focus, next))[k])
  {
    var merged := Merged(focus, next);
    if |merged| > 0 {
      MergedClean(focus, next);
    } else {
      TodosClean();
    }
  }

  /** With the Next Steps section present, the end-of-day text is
      `replace_section` of the merged tasks (or of the placeholders). */
  lemma WrapUpIsReplace(text: string)
    requires Contains(text, "## " + NextTitle) && WrapUp(text).Some?
    ensures WrapUp(text).value.text
         == ReplaceSection(text, NextTitle, NextItems(Merged(SectionTasks(text, FocusTitle).value, SectionTasks(text, NextTitle).value)))
  {
  }

  /** A section rewritten as a checklist of trimmed one-line items reads
      back as exactly those items, unchecked. */
  lemma RereadAfterReplace(text: string, title: string, items: seq<string>)
    requires '\n' !in title && MarkerLineEnds(text, "## " + title)
    requires forall k :: 0 <= k < |items| ==> Trimmed(items[k]) && NoBreak(items[k])
    ensures SectionTasks(ReplaceSection(text, title, items), title) == Some(Unchecked(items))
  {
    ExtractAfterReplace(text, title, items);
    CheckboxesOneLine(items);
    SplitLinesJoin(Checkboxes(items));
    TasksOfCheckboxes(items);
  }

  lemma CheckboxesOneLine(items: seq<string>)
    requires forall k :: 0 <= k < |items| ==> NoBreak(items[k])
    ensures forall k :: 0 <= k < |items| ==> NoBreak(Checkboxes(items)[k])
  {
    forall k | 0 <= k < |items| ensures NoBreak(Checkboxes(items)[k])
    {
      var line := Checkboxes(items)[k];
      forall j | 0 <= j < |line| ensures !IsLineBreak(line[j])
      {
        if j >= 6 {
          assert line[j] == items[k][j - 6];
        }
      }
    }
  }

  /** The texts of the tasks read from a journal's sections are trimmed
      single lines. */
  lemma SectionTasksClean(text: string, title: string)
    requires SectionTasks(text, title).Some?
    ensures forall k :: 0 <= k < |SectionTasks(text, title).value| ==>
              Trimmed(SectionTasks(text, title).value[k].text) && NoBreak(SectionTasks(text, title).value[k].text)
  {
    var lines := SplitLines(ExtractSection(text, title).body);
    TasksTrimmed(lines);
    TasksOneLine(lines);
  }

  /** Reading the rewritten section back gives exactly the merged texts,
      each unchecked. */
  lemma WrapUpRereads(text: string)
    requires MarkerLineEnds(text, "## " + NextTitle) && WrapUp(text).Some?
    ensures SectionTasks(WrapUp(text).value.text, NextTitle)
         == Some(Unchecked(NextItems(Merged(SectionTasks(text, FocusTitle).value, SectionTasks(text, NextTitle).value))))
  {
    var f := SectionTasks(text, FocusTitle).value;
    var n := SectionTasks(text, NextTitle).value;
    SectionTasksClean(text, FocusTitle);
    SectionTasksClean(text, NextTitle);
    MergedItemsClean(f, n);
    WrapUpIsReplace(text);
    TitlesOneLine();
    RereadAfterReplace(text, NextTitle, NextItems(Merged(f, n)));
  }

  /** Without the Next Steps heading both bounds are -1, so the new body
      lands just before the text's last character. */
  lemma WrapUpWithoutNextSteps(text: string)
    requires !Contains(text, "## " + NextTitle) && |text| > 0 && WrapUp(text).Some?
    ensures WrapUp(text).value.text
         == text[..|text| - 1] + Bullets(NextItems(Merged(SectionTasks(text, FocusTitle).value, []))) + text[|text| - 1..]
  {
  }
}

/** The error-note helpers: `slugify` and `build_note_content` of
    scripts/log_error_note.py, and `normalise`, the ignore filter of
    `iter_note_files` and the match and title logic of `search_notes` of
    scripts/search_error_notes.py. */
module Notes {
  import opened Floats
  import opened Text

  // ---------------------------------------------------------------- slugify

  predicate SlugChar(c: char)
  {
    'a' <= c <= 'z' || '0' <= c <= '9' || c == '-'
  }

  predicate AllSlug(s: string)
  {
    forall k :: 0 <= k < |s| ==> SlugChar(s[k])
  }

  predicate SlugOrSpace(s: string)
  {
    forall k :: 0 <= k < |s| ==> SlugChar(s[k]) || IsSpace(s[k])
  }

  /** `re.sub(r"[^a-z0-9\s-]", "", s)`: keep lower-case ASCII letters, digits,
      whitespace and `-`. */
  function KeepSlugChars(s: string): (r: string)
    ensures SlugOrSpace(r)
  {
    if |s| == 0 then ""
    else if SlugChar(s[0]) || IsSpace(s[0]) then [s[0]] + KeepSlugChars(s[1..])
    else KeepSlugChars(s[1..])
  }

  /** The text after the leading run of whitespace. */
  function DropSpaces(s: string): (r: string)
    ensures |r| <= |s| && r == s[|s| - |r|..]
    ensures |r| > 0 ==> !IsSpace(r[0])
  {
    if |s| > 0 && IsSpace(s[0]) then DropSpaces(s[1..]) else s
  }

  /** `re.sub(r"\s+", "-", s)`: every maximal run of whitespace becomes one `-`. */
  function CollapseSpaces(s: string): (r: string)
    ensures forall k :: 0 <= k < |r| ==> !IsSpace(r[k])
    ensures SlugOrSpace(s) ==> AllSlug(r)
    decreases |s|
  {
    if |s| == 0 then ""
    else if IsSpace(s[0]) then "-" + CollapseSpaces(DropSpaces(s))
    else [s[0]] + CollapseSpaces(s[1..])
  }

  /** `s.lstrip(c)`. */
  function StripLeft(s: string, c: char): (r: string)
    ensures |r| <= |s| && r == s[|s| - |r|..]
    ensures |r| > 0 ==> r[0] != c
  {
    if |s| > 0 && s[0] == c then StripLeft(s[1..], c) else s
  }

  /** `s.rstrip(c)`. */
  function StripRight(s: string, c: char): (r: string)
    ensures |r| <= |s| && r == s[..|r|]
    ensures |r| > 0 ==> r[|r| - 1] != c
  {
    if |s| > 0 && s[|s| - 1] == c then StripRight(s[..|s| - 1], c) else s
  }

  /** `s.strip(c)`. */
  function StripChar(s: string, c: char): (r: string)
    ensures |r| > 0 ==> r[0] != c && r[|r| - 1] != c
  {
    var l := StripLeft(s, c);
    var r := StripRight(l, c);
    assert |r| > 0 ==> r[0] == l[0];
    r
  }

  /** `str.lower()` on one character, as far as the slug filter can tell:
      ASCII capitals become lower-case, U+0130 (capital I with dot above)
      becomes `i` followed by U+0307, and U+212A (the Kelvin sign) becomes `k`.
      Every other character whose lower-case form differs lowers to one that
      is not an ASCII letter, digit, `-` or whitespace; the filter drops it
      either way, so it is kept unchanged here. */
  function SlugLowerChar(c: char): (r: string)
    ensures |r| >= 1 && r[0] == (if c == '\U{0130}' then 'i' else if c == '\U{212A}' then 'k' else LowerChar(c))
    ensures forall k :: 1 <= k < |r| ==> !SlugChar(r[k]) && !IsSpace(r[k])
  {
    if c == '\U{0130}' then "i\U{0307}"
    else if c == '\U{212A}' then "k"
    else [LowerChar(c)]
  }

  /** `value.lower()` as the slug filter sees it; on text without U+0130 and
      U+212A it is the ASCII lowering, character for character. */
  function SlugLower(s: string): (r: string)
    ensures |r| >= |s|
    ensures (forall k :: 0 <= k < |s| ==> s[k] != '\U{0130}' && s[k] != '\U{212A}') ==> r == Lower(s)
  {
    if |s| == 0 then ""
    else
      var rest := SlugLower(s[1..]);
      assert (forall k :: 0 <= k < |s| ==> s[k] != '\U{0130}' && s[k] != '\U{212A}') ==> SlugLowerChar(s[0]) + rest == Lower(s) by {
        if forall k :: 0 <= k < |s| ==> s[k] != '\U{0130}' && s[k] != '\U{212A}' {
          assert forall k :: 0 <= k < |s[1..]| ==> s[1..][k] == s[k + 1];
          assert Lower(s) == [LowerChar(s[0])] + Lower(s[1..]);
        }
      }
      SlugLowerChar(s[0]) + rest
  }

  /** `slugify`: lower-case, drop what is not a letter, digit, space or `-`,
      turn whitespace runs into `-`, trim `-` at both ends, or `"note"`. */
  function Slugify(value: string): (slug: string)
    ensures |slug| > 0
  {
    Finish(CollapseSpaces(KeepSlugChars(SlugLower(value))))
  }

  /** The capital I with dot above lowers to an `i` the slug keeps, and the
      Kelvin sign to a `k`. */
  lemma SlugifyNonAsciiCapitals()
    ensures Slugify("\U{0130}") == "i"
    ensures Slugify("\U{212A}") == "k"
  {
    assert SlugLower("\U{0130}") == "i\U{0307}";
    assert KeepSlugChars("i\U{0307}") == "i";
    assert CollapseSpaces("i") == "i";
    assert StripChar("i", '-') == "i";
    assert SlugLower("\U{212A}") == "k";
    assert KeepSlugChars("k") == "k";
    assert CollapseSpaces("k") == "k";
    assert StripChar("k", '-') == "k";
  }

  /** The last step of `slugify`: `.strip("-") or "note"`. */
  function Finish(c: string): (slug: string)
    ensures |slug| > 0
  {
    var s := StripChar(c, '-');
    if |s| == 0 then "note" else s
  }

  /** A slug holds only lower-case ASCII letters, digits and `-`, never
      begins or ends with `-`, and is never empty. */
  lemma SlugifyShape(value: string)
    ensures var slug := Slugify(value);
            |slug| > 0 && slug[0] != '-' && slug[|slug| - 1] != '-' && AllSlug(slug)
  {
    FinishShape(CollapseSpaces(KeepSlugChars(SlugLower(value))));
  }

  lemma FinishShape(c: string)
    requires AllSlug(c)
    ensures var slug := Finish(c);
            |slug| > 0 && slug[0] != '-' && slug[|slug| - 1] != '-' && AllSlug(slug)
  {
    var l := StripLeft(c, '-');
    assert AllSlug(l) by { SlugSlice(c, |c| - |l|, |c|); }
    var s := StripRight(l, '-');
    assert AllSlug(s) by { SlugSlice(l, 0, |s|); }
    assert s == StripChar(c, '-');
    if |s| == 0 {
      var note := "note";
      assert note[0] == 'n' && note[1] == 'o' && note[2] == 't' && note[3] == 'e';
      assert AllSlug(note);
    }
  }

  lemma SlugSlice(s: string, lo: nat, hi: nat)
    requires lo <= hi <= |s| && AllSlug(s)
    ensures AllSlug(s[lo..hi])
  {
    assert forall k :: 0 <= k < hi - lo ==> s[lo..hi][k] == s[lo + k];
  }

  /** A run of whitespace followed by a non-space becomes a single `-`. */
  lemma {:induction false} CollapseRun(w: string, rest: string)
    requires |w| > 0 && AllSpace(w) && (|rest| > 0 ==> !IsSpace(rest[0]))
    ensures CollapseSpaces(w + rest) == "-" + CollapseSpaces(rest)
  {
    DropRun(w, rest);
  }

  /** Dropping a leading whitespace run leaves what follows it. */
  lemma {:induction false} DropRun(w: string, rest: string)
    requires AllSpace(w) && (|rest| > 0 ==> !IsSpace(rest[0]))
    ensures DropSpaces(w + rest) == rest
    decreases |w|
  {
    if |w| > 0 {
      assert (w + rest)[1..] == w[1..] + rest;
      DropRun(w[1..], rest);
    } else {
      assert w + rest == rest;
    }
  }

  /** A character that is not whitespace is copied through. */
  lemma CollapseWord(c: char, rest: string)
    requires !IsSpace(c)
    ensures CollapseSpaces([c] + rest) == [c] + CollapseSpaces(rest)
  {
    assert ([c] + rest)[1..] == rest;
  }

  /** Nothing survives from a title of punctuation only, so the slug is `"note"`. */
  lemma SlugifyFallback(value: string)
    requires forall k :: 0 <= k < |value| ==>
               !SlugChar(LowerChar(value[k])) && !IsSpace(value[k]) && value[k] != '\U{0130}' && value[k] != '\U{212A}'
    ensures Slugify(value) == "note"
  {
    assert SlugLower(value) == Lower(value);
    NothingKept(Lower(value));
    assert CollapseSpaces("") == "";
    assert StripChar("", '-') == "";
  }

  lemma {:induction false} NothingKept(s: string)
    requires forall k :: 0 <= k < |s| ==> !SlugChar(s[k]) && !IsSpace(s[k])
    ensures KeepSlugChars(s) == ""
  {
    if |s| > 0 {
      NothingKept(s[1..]);
    }
  }

  // ------------------------------------------------------------- the note

  /** The command-line fields a note is built from. */
  datatype NoteArgs = NoteArgs(title: string, category: string, summary: string, error: string,
                               cause: string, resolution: string, tags: string, related: seq<string>)

  /** `s or placeholder`: an empty field gives way to its placeholder. */
  function Or(s: string, placeholder: string): (r: string)
    ensures |s| > 0 ==> r == s
    ensures |s| == 0 ==> r == placeholder
    ensures |placeholder| > 0 ==> |r| > 0
  {
    if |s| > 0 then s else placeholder
  }

  /** One `  - item` line per related item. */
  function RelatedLines(related: seq<string>): (lines: seq<string>)
    ensures |lines| == |related|
    ensures forall k :: 0 <= k < |related| ==> lines[k] == "  - " + related[k]
  {
    seq(|related|, k requires 0 <= k < |related| => "  - " + related[k])
  }

  /** The `related:` block: the item lines, or `"  -"` when there are none. */
  function RelatedBlock(related: seq<string>): (block: string)
    ensures |related| == 0 ==> block == "  -"
  {
    if |related| == 0 then "  -" else Join(RelatedLines(related), "\n")
  }

  /** `build_note_content` at time `now` (already formatted as
      `%Y-%m-%d %H:%M`). */
  function NoteContent(a: NoteArgs, now: string): (content: string)
    ensures |content| > 11 && content[..4] == "---\n" && content[4..11] == "title: "
    ensures content[|content| - 1] == '\n'
  {
    "---\n" + "title: " + a.title + "\n" + NoteRest(a, now)
  }

  /** Everything after the title line. */
  function NoteRest(a: NoteArgs, now: string): string
  {
    "date: " + now + "\ncategory: " + a.category
    + "\ntags: [" + Join(CommaTags(a.tags), ", ") + "]\nrelated:\n" + RelatedBlock(a.related)
    + "\n---\n\n## 상황 요약\n- " + Or(a.summary, "작성 필요")
    + "\n\n## 에러 메시지\n```\n" + Or(Strip(a.error), "에러 로그 추가 필요")
    + "\n```\n\n## 원인 진단\n- " + Or(a.cause, "원인 분석 추가 필요")
    + "\n\n## 해결 절차\n1. " + Or(a.resolution, "해결 방법 기록 필요")
    + "\n\n## 예방 및 메모\n- 후속 조치 및 참고 링크를 작성하세요.\n"
  }

  /** Where the note is written, below the notes directory:
      `<category>/<timestamp>_<slug>.md`. */
  function NotePath(category: string, timestamp: string, title: string): (path: seq<string>)
    ensures |path| == 2 && path[0] == category
  {
    [category, timestamp + "_" + Slugify(title) + ".md"]
  }

  /** A note written under a timestamp that begins with a digit is one the
      search does not skip. */
  lemma NotePathNotIgnored(category: string, timestamp: string, title: string)
    requires |timestamp| > 0 && '0' <= timestamp[0] <= '9'
    ensures !Ignored(NotePath(category, timestamp, title))
  {
    var name := NotePath(category, timestamp, title)[1];
    assert name[0] == timestamp[0];
    assert "note_template.md"[0] == 'n';
  }

  /** The search reads back the title a note was written with. */
  lemma NoteTitle(a: NoteArgs, now: string)
    requires NoBreak(a.title)
    ensures Title(SplitLines(NoteContent(a, now))) == Strip(a.title)
  {
    TitleAfterRule(a.title, NoteRest(a, now));
  }

  /** A text that opens with a `---` line and then a `title:` line. */
  lemma TitleAfterRule(title: string, rest: string)
    requires NoBreak(title)
    ensures Title(SplitLines("---\n" + "title: " + title + "\n" + rest)) == Strip(title)
  {
    var line := "title: " + title;
    assert "---\n" + "title: " + title + "\n" + rest == "---" + "\n" + (line + "\n" + rest);
    assert NoBreak(line) by {
      assert forall k :: 7 <= k < |line| ==> line[k] == title[k - 7];
    }
    SplitLinesFront("---", line + "\n" + rest);
    SplitLinesFront(line, rest);
    assert TitleOfLine("---") == None by {
      assert |Lower("---")| == 3;
    }
    TitleLine(title);
  }

  /** A `title:` line gives the rest of the line, stripped. */
  lemma TitleLine(t: string)
    ensures TitleOfLine("title: " + t) == Some(Strip(t))
  {
    var line := "title: " + t;
    assert Lower(line)[..6] == "title:";
    assert line == "title" + [':'] + (" " + t);
    SplitOnceAt("title", ':', " " + t);
    StripSpaceFront(t);
  }

  /** A leading space makes no difference to `strip`. */
  lemma StripSpaceFront(t: string)
    ensures Strip(" " + t) == Strip(t)
  {
    assert (" " + t)[1..] == t;
  }

  /** A line without breaks followed by `\n` is the first line. */
  lemma SplitLinesFront(line: string, rest: string)
    requires NoBreak(line)
    ensures SplitLines(line + "\n" + rest) == [line] + SplitLines(rest)
  {
    var s := line + "\n" + rest;
    assert s[..|line|] == line;
    assert s[|line|] == '\n';
    FirstBreakUnique(s, |line|);
    assert s[|line| + 1..] == rest;
  }

  /** The related items, one per line, read back from the block; no items
      read back as the single line `"  -"`. */
  lemma RelatedBlockLines(related: seq<string>)
    requires forall k :: 0 <= k < |related| ==> NoBreak(related[k])
    ensures SplitLines(RelatedBlock(related) + "\n") == if |related| == 0 then ["  -"] else RelatedLines(related)
  {
    if |related| == 0 {
      assert "  -" + "\n" == JoinLines(["  -"]);
      SplitLinesJoin(["  -"]);
    } else {
      var lines := RelatedLines(related);
      forall k | 0 <= k < |lines| ensures NoBreak(lines[k]) {
        assert forall m :: 4 <= m < |lines[k]| ==> lines[k][m] == related[k][m - 4];
      }
      JoinLinesJoin(lines);
      SplitLinesJoin(lines);
    }
  }

  /** `"\n".join(lines)` plus a final `\n` is one `\n` per line. */
  lemma {:induction false} JoinLinesJoin(lines: seq<string>)
    requires |lines| > 0
    ensures JoinLines(lines) == Join(lines, "\n") + "\n"
  {
    if |lines| > 1 {
      JoinLinesJoin(lines[1..]);
    }
  }

  /** The tags line of a note, parsed as the tags option is, gives the same
      tags back. */
  lemma TagsRoundTrip(raw: string)
    ensures CommaTags(Join(CommaTags(raw), ", ")) == CommaTags(raw)
  {
    var tags := CommaTags(raw);
    if |tags| == 0 {
      assert Split("", ',') == [""];
      assert Strip("") == "";
    } else {
      JoinPadded(tags[0], tags[1..]);
      assert tags == [tags[0]] + tags[1..];
      var parts := [tags[0]] + Padded(tags[1..]);
      SplitJoin(parts, ',');
      KeepPadded(tags[1..]);
      StripPadding([], tags[0], []);
      assert [] + tags[0] + [] == tags[0];
      assert parts[1..] == Padded(tags[1..]);
    }
  }

  /** Each piece with the space `", "` leaves after a comma. */
  function Padded(ts: seq<string>): (ps: seq<string>)
    ensures |ps| == |ts|
    ensures (forall k :: 0 <= k < |ts| ==> ',' !in ts[k]) ==> forall k :: 0 <= k < |ps| ==> ',' !in ps[k]
  {
    if |ts| == 0 then [] else [" " + ts[0]] + Padded(ts[1..])
  }

  lemma JoinFront(p: string, x: string, r: seq<string>, sep: string)
    ensures Join([p + x] + r, sep) == p + Join([x] + r, sep)
  {
    assert ([p + x] + r)[1..] == r == ([x] + r)[1..];
  }

  lemma StripPadded(t: string)
    requires Trimmed(t)
    ensures Strip(" " + t) == t
  {
    StripSpaceFront(t);
    StripPadding([], t, []);
    assert [] + t + [] == t;
  }

  /** Joining with `", "` is joining the padded pieces with `,`. */
  lemma {:induction false} JoinPadded(first: string, rest: seq<string>)
    ensures Join([first] + rest, ", ") == Join([first] + Padded(rest), ",")
    decreases |rest|
  {
    if |rest| > 0 {
      assert ([first] + rest)[1..] == rest;
      assert ([first] + Padded(rest))[1..] == Padded(rest);
      JoinPadded(" " + rest[0], rest[1..]);
      JoinFront(" ", rest[0], rest[1..], ", ");
      assert rest == [rest[0]] + rest[1..];
      assert Padded(rest) == [" " + rest[0]] + Padded(rest[1..]);
    }
  }

  /** Stripping the padded pieces gives the trimmed tags back. */
  lemma {:induction false} KeepPadded(ts: seq<string>)
    requires forall k :: 0 <= k < |ts| ==> |ts[k]| > 0 && Trimmed(ts[k]) && ',' !in ts[k]
    ensures KeepStripped(Padded(ts)) == ts
  {
    if |ts| > 0 {
      KeepPadded(ts[1..]);
      StripPadded(ts[0]);
      assert Padded(ts)[1..] == Padded(ts[1..]);
    }
  }

  // -------------------------------------------------------------- normalise

  /** `normalise`: lower-case, delete `_`, and turn `-` into a space. */
  function Normalise(text: string): (r: string)
    ensures '_' !in r && '-' !in r
    ensures forall k :: 0 <= k < |r| ==> !('A' <= r[k] <= 'Z')
  {
    var d := DeleteChar(Lower(text), '_');
    LowerKept(Lower(text), '_');
    MapChar(d, '-', ' ')
  }

  /** Deleting a character keeps a string free of upper-case letters. */
  lemma {:induction false} LowerKept(s: string, c: char)
    requires forall k :: 0 <= k < |s| ==> !('A' <= s[k] <= 'Z')
    ensures forall k :: 0 <= k < |DeleteChar(s, c)| ==> !('A' <= DeleteChar(s, c)[k] <= 'Z')
  {
    if |s| > 0 {
      LowerKept(s[1..], c);
    }
  }

  /** Normalising twice is normalising once. */
  lemma NormaliseIdempotent(text: string)
    ensures Normalise(Normalise(text)) == Normalise(text)
  {
    var n := Normalise(text);
    assert Lower(n) == n;
    assert DeleteChar(Lower(n), '_') == n;
    assert MapChar(n, '-', ' ') == n;
  }

  // ----------------------------------------------------------- the search

  /** `[normalise(k) for k in keywords if k]`. */
  function Keywords(raw: seq<string>): (keys: seq<string>)
    ensures |keys| <= |raw|
  {
    if |raw| == 0 then []
    else if |raw[0]| == 0 then Keywords(raw[1..])
    else [Normalise(raw[0])] + Keywords(raw[1..])
  }

  /** `all(k in text for k in keys)` on the normalised note. */
  predicate Matches(keys: seq<string>, raw: string)
  {
    forall k :: 0 <= k < |keys| ==> Contains(Normalise(raw), keys[k])
  }

  /** The title a line gives, if it starts with `title:` in any case. */
  function TitleOfLine(line: string): Option<string>
  {
    if StartsWith(Lower(line), "title:") then
      match SplitOnce(line, ':')
        case Some(parts) => Some(Strip(parts.1))
        case None => None
    else None
  }

  /** A line that starts with `title:` in any case always gives a title:
      the rest of the line after that colon, stripped. */
  lemma TitleOfLineShape(line: string)
    ensures TitleOfLine(line).Some? <==> StartsWith(Lower(line), "title:")
    ensures TitleOfLine(line).Some? ==> TitleOfLine(line).value == Strip(line[6..])
  {
    if StartsWith(Lower(line), "title:") {
      var low := Lower(line);
      assert low[5] == ':' && LowerChar(line[5]) == ':';
      assert line[5] == ':';
      forall k | 0 <= k < 5 ensures line[k] != ':' {
        assert low[k] == "title:"[k];
      }
      IndexOfUnique(line, ':', 5);
    }
  }

  /** The title of the first line that gives one, or `""`. */
  function Title(lines: seq<string>): string
  {
    if |lines| == 0 then ""
    else match TitleOfLine(lines[0])
      case Some(t) => t
      case None => Title(lines[1..])
  }

  /** A note file, by its path below the notes directory, and its text. */
  datatype Note = Note(path: seq<string>, raw: string)

  /** The files `iter_note_files` skips: the notes directory's own
      `README.md` and `_categories.yml`, and any `note_template.md`. */
  predicate Ignored(path: seq<string>)
  {
    path == ["README.md"] || path == ["_categories.yml"] || (|path| > 0 && path[|path| - 1] == "note_template.md")
  }

  /** The notes `search_notes` reports, with their titles, in listing order. */
  function Found(notes: seq<Note>, keys: seq<string>): (found: seq<(seq<string>, string)>)
    ensures |found| <= |notes|
    ensures forall k :: 0 <= k < |found| ==> !Ignored(found[k].0)
  {
    if |notes| == 0 then []
    else
      var rest := Found(notes[..|notes| - 1], keys);
      var n := notes[|notes| - 1];
      if !Ignored(n.path) && Matches(keys, n.raw) then rest + [(n.path, Title(SplitLines(n.raw)))] else rest
  }

  /** The title scan of `search_notes`: the first `title:` line wins. */
  method ScanTitle(raw: string) returns (title: string)
    ensures title == Title(SplitLines(raw))
  {
    var lines := SplitLines(raw);
    title := "";
    var n := 0;
    while n < |lines|
      invariant 0 <= n <= |lines|
      invariant title == "" && Title(lines) == Title(lines[n..])
    {
      assert lines[n..][1..] == lines[n + 1..];
      if StartsWith(Lower(lines[n]), "title:") {
        match SplitOnce(lines[n], ':') {
          case Some(parts) =>
            title := Strip(parts.1);
            return;
          case None =>
        }
      }
      n := n + 1;
    }
  }

  /** `search_notes` over the listing of the notes directory (the order
      `rglob` gives), reading each note's text from the listing. */
  method SearchNotes(notes: seq<Note>, raw: seq<string>) returns (results: seq<(seq<string>, string)>)
    ensures results == Found(notes, Keywords(raw))
  {
    var keys := Keywords(raw);
    results := [];
    for n := 0 to |notes|
      invariant results == Found(notes[..n], keys)
    {
      assert notes[..n + 1][..n] == notes[..n];
      var note := notes[n];
      if Ignored(note.path) {
        continue;
      }
      var text := Normalise(note.raw);
      var all := true;
      var m := 0;
      while m < |keys|
        invariant 0 <= m <= |keys|
        invariant all <==> forall k :: 0 <= k < m ==> Contains(text, keys[k])
      {
        all := all && Contains(text, keys[m]);
        m := m + 1;
      }
      if all {
        var title := ScanTitle(note.raw);
        results := results + [(note.path, title)];
      }
    }
    assert notes[..|notes|] == notes;
  }

  /** Empty keywords are dropped, so they change nothing. */
  lemma {:induction false} EmptyKeywordsIgnored(raw: seq<string>, more: seq<string>)
    requires forall k :: 0 <= k < |more| ==> more[k] == ""
    ensures Keywords(more + raw) == Keywords(raw)
  {
    if |more| > 0 {
      assert (more + raw)[1..] == more[1..] + raw;
      EmptyKeywordsIgnored(raw, more[1..]);
    } else {
      assert more + raw == raw;
    }
  }

  /** With no keywords every note matches, so every note that is not
      ignored is reported. */
  lemma {:induction false} NoKeywordsFindsAll(notes: seq<Note>, n: Note)
    requires n in notes && !Ignored(n.path)
    ensures (n.path, Title(SplitLines(n.raw))) in Found(notes, [])
  {
    var init := notes[..|notes| - 1];
    if n != notes[|notes| - 1] {
      assert n in init;
      NoKeywordsFindsAll(init, n);
    }
  }

  /** A note is reported exactly when it is not ignored and every keyword
      occurs in its normalised text. */
  lemma {:induction false} FoundMembers(notes: seq<Note>, keys: seq<string>, n: Note)
    requires n in notes
    requires forall i, j :: 0 <= i < j < |notes| ==> notes[i].path != notes[j].path
    ensures (n.path, Title(SplitLines(n.raw))) in Found(notes, keys) <==> !Ignored(n.path) && Matches(keys, n.raw)
  {
    var init := notes[..|notes| - 1];
    var last := notes[|notes| - 1];
    FoundPaths(init, keys);
    if n != last {
      assert n in init;
      FoundMembers(init, keys, n);
      assert n.path != last.path;
    } else {
      assert forall i :: 0 <= i < |init| ==> init[i].path != n.path;
    }
  }

  /** Every reported path comes from the listing. */
  lemma {:induction false} FoundPaths(notes: seq<Note>, keys: seq<string>)
    ensures forall r :: r in Found(notes, keys) ==> exists i :: 0 <= i < |notes| && notes[i].path == r.0
  {
    if |notes| > 0 {
      var init := notes[..|notes| - 1];
      FoundPaths(init, keys);
      forall r | r in Found(notes, keys) ensures exists i :: 0 <= i < |notes| && notes[i].path == r.0 {
        if r in Found(init, keys) {
          var i :| 0 <= i < |init| && init[i].path == r.0;
          assert notes[i] == init[i];
        } else {
          assert notes[|notes| - 1].path == r.0;
        }
      }
    }
  }

  /** The notes directory's `README.md` and `_categories.yml`, and every
      `note_template.md`, are never reported. */
  lemma {:induction false} IgnoredNeverFound(notes: seq<Note>, keys: seq<string>, r: (seq<string>, string))
    requires r in Found(notes, keys)
    ensures !Ignored(r.0)
  {
    var init := notes[..|notes| - 1];
    if r in Found(init, keys) {
      IgnoredNeverFound(init, keys, r);
    }
  }
}

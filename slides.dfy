/** The text side of extract_presentations.py: `_strip_text`, the keyword
    counts of `keyword_counts`, and the slide titles and keywords of
    `summarize_pptx`. The zip and XML readers are not part of this model:
    slides arrive as a map from slide number to text. */
module Slides {
  import opened Floats
  import opened Text
  import opened Sorting

  // ------------------------------------------------------------ strip text

  /** `[line.strip() for line in pieces if line.strip()]`. */
  function StrippedLines(pieces: seq<string>): (lines: seq<string>)
    requires forall k :: 0 <= k < |pieces| ==> '\n' !in pieces[k] && '\r' !in pieces[k]
    ensures forall k :: 0 <= k < |lines| ==> |lines[k]| > 0 && Trimmed(lines[k]) && '\n' !in lines[k] && '\r' !in lines[k]
  {
    if |pieces| == 0 then []
    else
      var t := Strip(pieces[0]);
      StripInside(pieces[0], '\n');
      StripInside(pieces[0], '\r');
      if |t| > 0 then [t] + StrippedLines(pieces[1..]) else StrippedLines(pieces[1..])
  }

  /** `_strip_text`: `\r` ends a line as `\n` does; the lines are stripped,
      blank ones dropped, and the rest joined by `\n`. */
  function StripText(s: string): (r: string)
    ensures '\r' !in r
  {
    var lines := TextLines(s);
    JoinNoCarriage(lines);
    Join(lines, "\n")
  }

  /** The lines `_strip_text` keeps. */
  function TextLines(s: string): (lines: seq<string>)
    ensures forall k :: 0 <= k < |lines| ==> |lines[k]| > 0 && Trimmed(lines[k]) && '\n' !in lines[k] && '\r' !in lines[k]
  {
    if |s| == 0 then []
    else
      var u := MapChar(s, '\r', '\n');
      NoCarriage(u, Split(u, '\n'));
      StrippedLines(Split(u, '\n'))
  }

  lemma NoCarriage(u: string, parts: seq<string>)
    requires '\r' !in u && parts == Split(u, '\n')
    ensures forall k :: 0 <= k < |parts| ==> '\n' !in parts[k] && '\r' !in parts[k]
  {
    forall k | 0 <= k < |parts| ensures '\r' !in parts[k] {
      PartOfJoin(parts, "\n", k);
    }
  }

  /** Each piece lies inside the joined text. */
  lemma {:induction false} PartOfJoin(parts: seq<string>, sep: string, k: nat)
    requires k < |parts|
    ensures forall c :: c in parts[k] ==> c in Join(parts, sep)
  {
    if k > 0 {
      PartOfJoin(parts[1..], sep, k - 1);
    }
  }

  lemma {:induction false} JoinNoCarriage(lines: seq<string>)
    requires forall k :: 0 <= k < |lines| ==> '\r' !in lines[k]
    ensures '\r' !in Join(lines, "\n")
  {
    if |lines| > 1 {
      JoinNoCarriage(lines[1..]);
    }
  }

  /** The stripped text is its kept lines joined by `\n`: empty input gives
      the empty text, and every line of the result is stripped and not
      blank. */
  lemma StripTextLines(s: string)
    ensures |s| == 0 ==> StripText(s) == ""
    ensures |TextLines(s)| > 0 ==> Split(StripText(s), '\n') == TextLines(s)
  {
    var lines := TextLines(s);
    if |lines| > 0 {
      SplitJoin(lines, '\n');
    }
  }

  /** Stripping the text twice is stripping it once. */
  lemma StripTextIdempotent(s: string)
    ensures StripText(StripText(s)) == StripText(s)
  {
    var lines := TextLines(s);
    var r := StripText(s);
    StripTextLines(s);
    if |lines| > 0 {
      assert |r| > 0 by { JoinNonEmpty(lines); }
      assert MapChar(r, '\r', '\n') == r;
      assert Split(r, '\n') == lines;
      KeptLinesFixed(lines);
    }
  }

  lemma JoinNonEmpty(lines: seq<string>)
    requires |lines| > 0 && |lines[0]| > 0
    ensures |Join(lines, "\n")| > 0
  {
  }

  /** Lines already stripped and not blank are kept as they are. */
  lemma {:induction false} KeptLinesFixed(lines: seq<string>)
    requires forall k :: 0 <= k < |lines| ==> |lines[k]| > 0 && Trimmed(lines[k]) && '\n' !in lines[k] && '\r' !in lines[k]
    ensures StrippedLines(lines) == lines
  {
    if |lines| > 0 {
      KeptLinesFixed(lines[1..]);
      StripPadding([], lines[0], []);
      assert [] + lines[0] + [] == lines[0];
    }
  }

  // ---------------------------------------------------------------- tokens

  /** The character classes of the pattern `[A-Za-z]+|[0-9]+|[가-힣]+`:
      1 for ASCII letters, 2 for ASCII digits, 3 for Hangul syllables, and 0
      for everything else. */
  function ClassOf(c: char): (cl: nat)
    ensures cl <= 3
  {
    if 'A' <= c <= 'Z' || 'a' <= c <= 'z' then 1
    else if '0' <= c <= '9' then 2
    else if '\U{AC00}' <= c <= '\U{D7A3}' then 3
    else 0
  }

  /** Every character of `s` is of class `cl`. */
  predicate OfClass(s: string, cl: nat)
  {
    forall k :: 0 <= k < |s| ==> ClassOf(s[k]) == cl
  }

  /** The length of the run of class `cl` at the front of `s`. */
  function Run(s: string, cl: nat): (n: nat)
    ensures n <= |s| && OfClass(s[..n], cl)
    ensures n < |s| ==> ClassOf(s[n]) != cl
  {
    if |s| == 0 || ClassOf(s[0]) != cl then 0
    else
      var n := 1 + Run(s[1..], cl);
      assert forall k :: 1 <= k < n ==> s[..n][k] == s[1..][..n - 1][k - 1];
      n
  }

  /** `re.findall`: the maximal runs of one class, left to right. */
  function Tokens(s: string): (ts: seq<string>)
    ensures forall k :: 0 <= k < |ts| ==> |ts[k]| > 0 && ClassOf(ts[k][0]) != 0 && OfClass(ts[k], ClassOf(ts[k][0]))
    decreases |s|
  {
    if |s| == 0 then []
    else if ClassOf(s[0]) == 0 then Tokens(s[1..])
    else
      var n := Run(s, ClassOf(s[0]));
      [s[..n]] + Tokens(s[n..])
  }

  /** A run ends where the class changes. */
  lemma {:induction false} RunUnique(s: string, cl: nat, n: nat)
    requires n <= |s| && OfClass(s[..n], cl) && (n < |s| ==> ClassOf(s[n]) != cl)
    ensures Run(s, cl) == n
    decreases n
  {
    if n > 0 {
      assert ClassOf(s[..n][0]) == cl;
      assert s[1..][..n - 1] == s[..n][1..];
      RunUnique(s[1..], cl, n - 1);
    }
  }

  /** Tokens written out with a space between them are read back as the same
      tokens. */
  lemma {:induction false} TokensJoin(ts: seq<string>)
    requires forall k :: 0 <= k < |ts| ==> |ts[k]| > 0 && ClassOf(ts[k][0]) != 0 && OfClass(ts[k], ClassOf(ts[k][0]))
    ensures Tokens(Join(ts, " ")) == ts
  {
    if |ts| == 1 {
      var t := ts[0];
      assert t[..|t|] == t;
      RunUnique(t, ClassOf(t[0]), |t|);
      assert t[|t|..] == "";
    } else if |ts| > 1 {
      var t := ts[0];
      var rest := Join(ts[1..], " ");
      var s := t + " " + rest;
      assert Join(ts, " ") == s;
      assert s[..|t|] == t;
      RunUnique(s, ClassOf(t[0]), |t|);
      assert s[|t|..] == " " + rest;
      assert (" " + rest)[1..] == rest;
      TokensJoin(ts[1..]);
    }
  }

  /** The Korean and English stop words. */
  const Stopwords: set<string> := {
    "및", "등", "또는", "그리고", "그러나", "이", "그", "저", "의", "에", "를", "이란", "에서", "으로",
    "으로써", "와", "과", "하다", "했다", "있는", "없는", "등의",
    "the", "and", "of", "to", "in", "for", "on", "with", "as", "by", "is", "are", "be", "from", "at",
    "that", "this", "it", "we", "a", "an", "or", "not", "into", "can", "using", "use", "used", "via"
  }

  /** The tokens lower-cased, without stop words and one-character tokens. */
  function Words(ts: seq<string>): (ws: seq<string>)
    ensures forall k :: 0 <= k < |ws| ==> |ws[k]| > 1 && ws[k] !in Stopwords
  {
    if |ts| == 0 then []
    else
      var w := Lower(ts[0]);
      if w !in Stopwords && |w| > 1 then [w] + Words(ts[1..]) else Words(ts[1..])
  }

  /** A word is kept exactly when it is the lower-cased form of a token
      that is neither a stop word nor a single character. */
  lemma {:induction false} WordsMembers(ts: seq<string>, w: string)
    ensures w in Words(ts) <==> w !in Stopwords && |w| > 1 && exists k :: 0 <= k < |ts| && Lower(ts[k]) == w
  {
    if |ts| > 0 {
      WordsMembers(ts[1..], w);
      if exists k :: 0 <= k < |ts| && Lower(ts[k]) == w {
        var k :| 0 <= k < |ts| && Lower(ts[k]) == w;
        if k > 0 {
          assert Lower(ts[1..][k - 1]) == w;
        }
      }
      if exists k :: 0 <= k < |ts[1..]| && Lower(ts[1..][k]) == w {
        var k :| 0 <= k < |ts[1..]| && Lower(ts[1..][k]) == w;
        assert Lower(ts[k + 1]) == w;
      }
    }
  }

  // ---------------------------------------------------------- most common

  /** How often `w` occurs in `ws`. */
  function Count(ws: seq<string>, w: string): (n: nat)
    ensures n <= |ws|
  {
    if |ws| == 0 then 0 else Count(ws[..|ws| - 1], w) + (if ws[|ws| - 1] == w then 1 else 0)
  }

  lemma {:induction false} CountPositive(ws: seq<string>, w: string)
    ensures w in ws <==> Count(ws, w) > 0
  {
    if |ws| > 0 {
      CountPositive(ws[..|ws| - 1], w);
      assert ws == ws[..|ws| - 1] + [ws[|ws| - 1]];
    }
  }

  /** The distinct words in order of first occurrence, as a `Counter`
      keeps them. */
  function Distinct(ws: seq<string>): (ds: seq<string>)
    ensures forall i, j :: 0 <= i < j < |ds| ==> ds[i] != ds[j]
    ensures forall w :: w in ds <==> w in ws
  {
    if |ws| == 0 then []
    else
      var init := Distinct(ws[..|ws| - 1]);
      var w := ws[|ws| - 1];
      assert forall v :: v in ws <==> v in ws[..|ws| - 1] || v == w;
      if w in init then init else init + [w]
  }

  /** `ds` is ordered by descending count in `ws`. */
  predicate Descending(ds: seq<string>, ws: seq<string>)
  {
    forall i, j :: 0 <= i < j < |ds| ==> Count(ws, ds[i]) >= Count(ws, ds[j])
  }

  predicate NoRepeats(ds: seq<string>)
  {
    forall i, j :: 0 <= i < j < |ds| ==> ds[i] != ds[j]
  }

  /** Where `w` goes: after every word whose count is at least its own. */
  function Pos(w: string, ds: seq<string>, ws: seq<string>): (p: nat)
    ensures p <= |ds|
    ensures forall i :: 0 <= i < p ==> Count(ws, ds[i]) >= Count(ws, w)
    ensures p < |ds| ==> Count(ws, ds[p]) < Count(ws, w)
  {
    if |ds| == 0 || Count(ws, ds[0]) < Count(ws, w) then 0
    else 1 + Pos(w, ds[1..], ws)
  }

  /** Insert `w` into a list ordered by descending count, after the words
      that occur at least as often, so that equal counts keep their order. */
  function Insert(w: string, ds: seq<string>, ws: seq<string>): (r: seq<string>)
    ensures |r| == |ds| + 1
  {
    var p := Pos(w, ds, ws);
    ds[..p] + [w] + ds[p..]
  }

  lemma InsertMember(w: string, ds: seq<string>, ws: seq<string>, x: string)
    ensures x in Insert(w, ds, ws) <==> x in ds || x == w
  {
    var p := Pos(w, ds, ws);
    assert ds == ds[..p] + ds[p..];
  }

  lemma InsertDescending(w: string, ds: seq<string>, ws: seq<string>)
    requires Descending(ds, ws)
    ensures Descending(Insert(w, ds, ws), ws)
  {
    var p := Pos(w, ds, ws);
    var r := Insert(w, ds, ws);
    forall i, j | 0 <= i < j < |r| ensures Count(ws, r[i]) >= Count(ws, r[j]) {
      var a := if i < p then i else if i == p then -1 else i - 1;
      var b := if j < p then j else if j == p then -1 else j - 1;
      if i != p && j != p {
        assert r[i] == ds[a] && r[j] == ds[b];
      } else if j == p {
        assert r[i] == ds[i];
      } else {
        assert r[j] == ds[j - 1] && p <= j - 1;
        if p < j - 1 {
          assert Count(ws, ds[p]) >= Count(ws, ds[j - 1]);
        }
      }
    }
  }

  lemma InsertNoRepeats(w: string, ds: seq<string>, ws: seq<string>)
    requires NoRepeats(ds) && w !in ds
    ensures NoRepeats(Insert(w, ds, ws))
  {
    var p := Pos(w, ds, ws);
    var r := Insert(w, ds, ws);
    forall i, j | 0 <= i < j < |r| ensures r[i] != r[j] {
      if i == p {
        assert r[j] == ds[j - 1];
      } else if j == p {
        assert r[i] == ds[i];
      } else {
        var a := if i < p then i else i - 1;
        var b := if j < p then j else j - 1;
        assert r[i] == ds[a] && r[j] == ds[b] && a < b;
      }
    }
  }

  /** The stable sort by descending count. */
  function SortByCount(ds: seq<string>, ws: seq<string>): (r: seq<string>)
    ensures |r| == |ds|
  {
    if |ds| == 0 then []
    else Insert(ds[|ds| - 1], SortByCount(ds[..|ds| - 1], ws), ws)
  }

  /** Sorting keeps exactly the words it was given. */
  lemma {:induction false} SortMember(ds: seq<string>, ws: seq<string>, x: string)
    ensures x in SortByCount(ds, ws) <==> x in ds
  {
    if |ds| > 0 {
      var init := ds[..|ds| - 1];
      SortMember(init, ws, x);
      InsertMember(ds[|ds| - 1], SortByCount(init, ws), ws, x);
      assert ds == init + [ds[|ds| - 1]];
    }
  }

  /** The sorted list is ordered by descending count, and a list without
      repeats stays without repeats. */
  lemma {:induction false} SortOrdered(ds: seq<string>, ws: seq<string>)
    ensures Descending(SortByCount(ds, ws), ws)
    ensures NoRepeats(ds) ==> NoRepeats(SortByCount(ds, ws))
  {
    if |ds| > 0 {
      var init := ds[..|ds| - 1];
      var last := ds[|ds| - 1];
      SortOrdered(init, ws);
      InsertDescending(last, SortByCount(init, ws), ws);
      if NoRepeats(ds) {
        assert NoRepeats(init);
        SortMember(init, ws, last);
        assert last !in init;
        InsertNoRepeats(last, SortByCount(init, ws), ws);
      }
    }
  }

  /** `Counter(ws).most_common(topn)`: the words with their counts, most
      frequent first, at most `topn` of them. */
  function MostCommon(ws: seq<string>, topn: nat): (r: seq<(string, nat)>)
    ensures |r| <= topn
  {
    Pairs(SortByCount(Distinct(ws), ws), ws, topn)
  }

  /** The first `topn` words of `sorted` with their counts. */
  function Pairs(sorted: seq<string>, ws: seq<string>, topn: nat): (r: seq<(string, nat)>)
    ensures |r| == if topn < |sorted| then topn else |sorted|
    ensures forall k :: 0 <= k < |r| ==> r[k] == (sorted[k], Count(ws, sorted[k]))
  {
    var n := if topn < |sorted| then topn else |sorted|;
    seq(n, k requires 0 <= k < n => (sorted[k], Count(ws, sorted[k])))
  }

  /** `keyword_counts`. */
  function KeywordCounts(text: string, topn: nat): (r: seq<(string, nat)>)
    ensures |r| <= topn
    ensures forall k :: 0 <= k < |r| ==>
              r[k].0 in Words(Tokens(text)) && r[k].1 == Count(Words(Tokens(text)), r[k].0)
    ensures forall i, j :: 0 <= i < j < |r| ==> r[i].1 >= r[j].1 && r[i].0 != r[j].0
  {
    MostCommonPairs(Words(Tokens(text)), topn);
    MostCommon(Words(Tokens(text)), topn)
  }

  /** Whether the pairs hold `w`. */
  predicate Listed(r: seq<(string, nat)>, w: string)
  {
    exists k :: 0 <= k < |r| && r[k].0 == w
  }

  /** Each pair is a word of the list and its count; the words are
      distinct and the counts never increase. */
  lemma MostCommonPairs(ws: seq<string>, topn: nat)
    ensures var r := MostCommon(ws, topn);
            (forall k :: 0 <= k < |r| ==> r[k].0 in ws && r[k].1 == Count(ws, r[k].0))
            && (forall i, j :: 0 <= i < j < |r| ==> r[i].1 >= r[j].1 && r[i].0 != r[j].0)
  {
    var ds := Distinct(ws);
    var sorted := SortByCount(ds, ws);
    SortOrdered(ds, ws);
    forall k | 0 <= k < |sorted| ensures sorted[k] in ws {
      SortMember(ds, ws, sorted[k]);
    }
  }

  /** No word left out occurs more often than the last one kept. */
  lemma MostCommonTop(ws: seq<string>, topn: nat, w: string)
    requires w in ws
    ensures var r := MostCommon(ws, topn);
            |r| > 0 && !Listed(r, w) ==> Count(ws, w) <= r[|r| - 1].1
  {
    var ds := Distinct(ws);
    var sorted := SortByCount(ds, ws);
    var r := MostCommon(ws, topn);
    SortOrdered(ds, ws);
    SortMember(ds, ws, w);
    var k :| 0 <= k < |sorted| && sorted[k] == w;
    if |r| > 0 && !Listed(r, w) {
      assert k >= |r| by {
        assert forall j :: 0 <= j < |r| ==> sorted[j] != w;
      }
      assert Count(ws, sorted[|r| - 1]) >= Count(ws, sorted[k]);
    }
  }

  /** Fewer than `topn` pairs means every word is listed. */
  lemma MostCommonAll(ws: seq<string>, topn: nat, w: string)
    requires w in ws
    ensures var r := MostCommon(ws, topn);
            |r| < topn ==> Listed(r, w)
  {
    var ds := Distinct(ws);
    var sorted := SortByCount(ds, ws);
    var r := MostCommon(ws, topn);
    SortMember(ds, ws, w);
    var k :| 0 <= k < |sorted| && sorted[k] == w;
    if |r| < topn {
      assert r[k].0 == w;
    }
  }

  // -------------------------------------------------------------- summary

  /** The slides dictionary, as its items in insertion order. */
  predicate DistinctKeys(slides: seq<(int, string)>)
  {
    forall i, j :: 0 <= i < j < |slides| ==> slides[i].0 != slides[j].0
  }

  function Keys(slides: seq<(int, string)>): (ks: seq<int>)
    ensures |ks| == |slides| && forall k :: 0 <= k < |slides| ==> ks[k] == slides[k].0
  {
    seq(|slides|, k requires 0 <= k < |slides| => slides[k].0)
  }

  /** `slides[idx]`. */
  function Lookup(slides: seq<(int, string)>, idx: int): (text: string)
    requires idx in Keys(slides)
    ensures exists k :: 0 <= k < |slides| && slides[k] == (idx, text)
  {
    if slides[0].0 == idx then slides[0].1
    else
      assert Keys(slides[1..]) == Keys(slides)[1..];
      Lookup(slides[1..], idx)
  }

  /** The slide numbers in ascending order. */
  function SortedKeys(slides: seq<(int, string)>): (ks: seq<int>)
    ensures |ks| == |slides|
  {
    SortInts(Keys(slides))
  }

  lemma SortedKeysFacts(slides: seq<(int, string)>, y: int)
    requires DistinctKeys(slides)
    ensures Ascending(SortedKeys(slides))
    ensures y in SortedKeys(slides) <==> y in Keys(slides)
  {
    SortIntsFacts(Keys(slides), y);
  }

  /** `content.split("\n") if content else []`. */
  function SlideLines(content: string): (lines: seq<string>)
    ensures |content| == 0 <==> |lines| == 0
  {
    if |content| == 0 then [] else Split(content, '\n')
  }

  /** The first line that is not blank, stripped, or `""`. */
  function FirstTitle(lines: seq<string>): (title: string)
    ensures Trimmed(title)
  {
    if |lines| == 0 then ""
    else if |Strip(lines[0])| > 0 then Strip(lines[0])
    else FirstTitle(lines[1..])
  }

  /** The title is empty exactly when every line is blank. */
  lemma {:induction false} FirstTitleBlank(lines: seq<string>)
    ensures FirstTitle(lines) == "" <==> forall k :: 0 <= k < |lines| ==> Strip(lines[k]) == ""
  {
    if |lines| > 0 {
      FirstTitleBlank(lines[1..]);
      assert forall k :: 1 <= k < |lines| ==> lines[k] == lines[1..][k - 1];
    }
  }

  /** A slide as `summarize_pptx` lists it. */
  datatype Item = Item(idx: int, title: string, lines: seq<string>)

  /** The slides in ascending number, each with its title and lines. */
  function Items(slides: seq<(int, string)>): (items: seq<Item>)
    requires DistinctKeys(slides)
    ensures |items| == |slides|
    ensures forall k :: 0 <= k < |items| ==> items[k].idx == SortedKeys(slides)[k]
  {
    var keys := SortedKeys(slides);
    KeysIn(slides);
    seq(|keys|, k requires 0 <= k < |keys| =>
      var text := Lookup(slides, keys[k]);
      Item(keys[k], FirstTitle(SlideLines(text)), SlideLines(text)))
  }

  /** Every sorted key is a key. */
  lemma KeysIn(slides: seq<(int, string)>)
    requires DistinctKeys(slides)
    ensures forall k :: 0 <= k < |slides| ==> SortedKeys(slides)[k] in Keys(slides)
  {
    forall k | 0 <= k < |slides| ensures SortedKeys(slides)[k] in Keys(slides) {
      SortedKeysFacts(slides, SortedKeys(slides)[k]);
    }
  }

  /** `summarize_pptx`: the listed slides, and the keyword counts over the
      text of all slides joined by `\n` in slide order. */
  function Summarize(slides: seq<(int, string)>): (r: (seq<Item>, seq<(string, nat)>))
    requires DistinctKeys(slides)
    ensures |r.1| <= 10
  {
    var keys := SortedKeys(slides);
    KeysIn(slides);
    var texts := seq(|keys|, k requires 0 <= k < |keys| => Lookup(slides, keys[k]));
    (Items(slides), KeywordCounts(Join(texts, "\n"), 10))
  }

  /** Every slide is listed once, in ascending number, with the title of
      its own text. */
  lemma SummaryItems(slides: seq<(int, string)>)
    requires DistinctKeys(slides)
    ensures |Summarize(slides).0| == |slides|
    ensures forall k :: 0 <= k < |Summarize(slides).0| ==>
              (Summarize(slides).0[k].idx in Keys(slides) &&
               Summarize(slides).0[k].title == FirstTitle(SlideLines(Lookup(slides, Summarize(slides).0[k].idx))))
    ensures forall i, j :: 0 <= i < j < |Summarize(slides).0| ==> Summarize(slides).0[i].idx < Summarize(slides).0[j].idx
  {
    KeysIn(slides);
    SortedKeysFacts(slides, 0);
  }

  /** Whether slide `idx` is listed. */
  predicate ListsSlide(items: seq<Item>, idx: int)
  {
    exists k :: 0 <= k < |items| && items[k].idx == idx
  }

  /** A slide number is listed exactly when it is one of the slides. */
  lemma SummaryListsAll(slides: seq<(int, string)>, idx: int)
    requires DistinctKeys(slides)
    ensures ListsSlide(Summarize(slides).0, idx) <==> idx in Keys(slides)
  {
    var keys := SortedKeys(slides);
    var items := Items(slides);
    assert Summarize(slides).0 == items;
    SortedKeysFacts(slides, idx);
    if idx in Keys(slides) {
      var k :| 0 <= k < |keys| && keys[k] == idx;
      assert items[k].idx == idx;
    }
    if ListsSlide(items, idx) {
      var k :| 0 <= k < |items| && items[k].idx == idx;
      assert keys[k] == idx;
    }
  }

  /** The title of a slide whose text went through `_strip_text` is its
      first line. */
  lemma StrippedSlideTitle(x: string)
    ensures |TextLines(x)| > 0 ==> FirstTitle(SlideLines(StripText(x))) == TextLines(x)[0]
    ensures |TextLines(x)| == 0 ==> FirstTitle(SlideLines(StripText(x))) == ""
  {
    var lines := TextLines(x);
    StripTextLines(x);
    if |lines| > 0 {
      assert |StripText(x)| > 0 by { JoinNonEmpty(lines); }
      StripPadding([], lines[0], []);
      assert [] + lines[0] + [] == lines[0];
    }
  }
}

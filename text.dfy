/** The parts of Python's `str` that the journal, note and presentation
    scripts rely on, over `seq<char>`: whitespace stripping, `find`,
    one-character `split` and `join`, `splitlines`, `replace`, and ASCII
    lower-casing. */
module Text {
  import opened Floats

  /** The characters `str.strip()`, `str.isspace()` and the regular-expression
      class `\s` treat as whitespace. */
  predicate IsSpace(c: char)
  {
    c == ' ' || '\t' <= c <= '\r' || '\U{1c}' <= c <= '\U{1f}' || c == '\U{85}' || c == '\U{a0}'
    || c == '\U{1680}' || '\U{2000}' <= c <= '\U{200a}' || c == '\U{2028}' || c == '\U{2029}'
    || c == '\U{202f}' || c == '\U{205f}' || c == '\U{3000}'
  }

  /** The characters at which `str.splitlines()` ends a line. */
  predicate IsLineBreak(c: char)
  {
    '\n' <= c <= '\r' || '\U{1c}' <= c <= '\U{1e}' || c == '\U{85}' || c == '\U{2028}' || c == '\U{2029}'
  }

  predicate AllSpace(s: string)
  {
    forall k :: 0 <= k < |s| ==> IsSpace(s[k])
  }

  /** A string with no whitespace at either end. */
  predicate Trimmed(s: string)
  {
    |s| == 0 || (!IsSpace(s[0]) && !IsSpace(s[|s| - 1]))
  }

  // ------------------------------------------------------------------ strip

  /** The number of leading whitespace characters. */
  function LeadingSpaces(s: string): (a: nat)
    ensures a <= |s|
    ensures a < |s| ==> !IsSpace(s[a])
  {
    if |s| == 0 || !IsSpace(s[0]) then 0 else 1 + LeadingSpaces(s[1..])
  }

  /** Where the trailing whitespace begins. */
  function TrailingStart(s: string): (b: nat)
    ensures b <= |s|
    ensures b > 0 ==> !IsSpace(s[b - 1])
  {
    if |s| == 0 || !IsSpace(s[|s| - 1]) then |s| else TrailingStart(s[..|s| - 1])
  }

  /** Everything before `LeadingSpaces(s)` is whitespace. */
  lemma {:induction false} LeadingAllSpace(s: string)
    ensures AllSpace(s[..LeadingSpaces(s)])
  {
    if |s| > 0 && IsSpace(s[0]) {
      LeadingAllSpace(s[1..]);
      var a := LeadingSpaces(s);
      assert s[..a] == [s[0]] + s[1..][..a - 1];
    }
  }

  /** Everything from `TrailingStart(s)` on is whitespace. */
  lemma {:induction false} TrailingAllSpace(s: string)
    ensures AllSpace(s[TrailingStart(s)..])
  {
    if |s| > 0 && IsSpace(s[|s| - 1]) {
      TrailingAllSpace(s[..|s| - 1]);
      var b := TrailingStart(s);
      assert s[b..] == s[..|s| - 1][b..] + [s[|s| - 1]];
    }
  }

  /** `str.strip()` with no argument. */
  function Strip(s: string): (r: string)
    ensures Trimmed(r)
    ensures |r| <= |s|
  {
    var t := s[LeadingSpaces(s)..];
    t[..TrailingStart(t)]
  }

  /** `a` is the leading-whitespace count when all before it is whitespace and
      the character at `a` is not. */
  lemma {:induction false} LeadingSpacesUnique(s: string, a: nat)
    requires a <= |s| && AllSpace(s[..a]) && (a < |s| ==> !IsSpace(s[a]))
    ensures LeadingSpaces(s) == a
    decreases a
  {
    if a > 0 {
      assert IsSpace(s[..a][0]);
      assert s[1..][..a - 1] == s[..a][1..];
      LeadingSpacesUnique(s[1..], a - 1);
    }
  }

  /** `b` is where trailing whitespace begins when all from it on is
      whitespace and the character before it is not. */
  lemma {:induction false} TrailingStartUnique(s: string, b: nat)
    requires b <= |s| && AllSpace(s[b..]) && (b > 0 ==> !IsSpace(s[b - 1]))
    ensures TrailingStart(s) == b
    decreases |s| - b
  {
    if b < |s| {
      assert IsSpace(s[b..][|s| - 1 - b]);
      assert s[..|s| - 1][b..] == s[b..][..|s| - 1 - b];
      TrailingStartUnique(s[..|s| - 1], b);
    }
  }

  /** Stripping removes exactly the whitespace padding: any string made of
      whitespace, a trimmed core and whitespace strips to that core. */
  lemma StripPadding(p: string, t: string, q: string)
    requires AllSpace(p) && AllSpace(q) && Trimmed(t)
    ensures Strip(p + t + q) == t
  {
    var s := p + t + q;
    if |t| == 0 {
      assert s == p + q;
      assert AllSpace(s[..|s|]) by {
        forall k | 0 <= k < |s| ensures IsSpace(s[k]) {
          if k < |p| { assert s[k] == p[k]; } else { assert s[k] == q[k - |p|]; }
        }
      }
      LeadingSpacesUnique(s, |s|);
    } else {
      assert s[..|p|] == p;
      assert s[|p|] == t[0];
      LeadingSpacesUnique(s, |p|);
      var u := s[|p|..];
      assert u == t + q;
      assert u[|t|..] == q;
      assert u[|t| - 1] == t[|t| - 1];
      TrailingStartUnique(u, |t|);
      assert u[..|t|] == t;
    }
  }

  /** Stripping twice is stripping once. */
  lemma StripIdempotent(s: string)
    ensures Strip(Strip(s)) == Strip(s)
  {
    StripPadding([], Strip(s), []);
    assert [] + Strip(s) + [] == Strip(s);
  }

  // ------------------------------------------------------------------- find

  /** `sub` occurs in `s` starting at index `i`. */
  predicate At(s: string, sub: string, i: int)
  {
    0 <= i && i + |sub| <= |s| && s[i..i + |sub|] == sub
  }

  /** `s.find(sub, from)`: the first index at or after `from` where `sub`
      occurs, or -1. */
  function Find(s: string, sub: string, from: nat): (r: int)
    requires from <= |s|
    ensures r == -1 || (from <= r && At(s, sub, r))
    ensures r == -1 ==> forall i :: from <= i <= |s| ==> !At(s, sub, i)
    ensures r >= 0 ==> forall i :: from <= i < r ==> !At(s, sub, i)
    decreases |s| - from
  {
    if At(s, sub, from) then from
    else if from == |s| then -1
    else Find(s, sub, from + 1)
  }

  /** `k` is what `find` returns when `sub` occurs at `k` and nowhere
      between `from` and `k`. */
  lemma {:induction false} FindUnique(s: string, sub: string, from: nat, k: nat)
    requires from <= k <= |s| && At(s, sub, k)
    requires forall i :: from <= i < k ==> !At(s, sub, i)
    ensures Find(s, sub, from) == k
    decreases k - from
  {
    if from < k {
      FindUnique(s, sub, from + 1, k);
    }
  }

  /** `find` returns -1 when `sub` occurs nowhere from `from` on. */
  lemma {:induction false} FindNone(s: string, sub: string, from: nat)
    requires from <= |s|
    requires forall i :: from <= i <= |s| ==> !At(s, sub, i)
    ensures Find(s, sub, from) == -1
    decreases |s| - from
  {
    if from < |s| {
      FindNone(s, sub, from + 1);
    }
  }

  /** Two strings that agree on their first `n` characters agree on every
      occurrence that ends within them. */
  lemma AtInCommonPrefix(s: string, t: string, n: nat, sub: string, i: nat)
    requires n <= |s| && n <= |t| && s[..n] == t[..n] && i + |sub| <= n
    ensures At(s, sub, i) <==> At(t, sub, i)
  {
    assert s[i..i + |sub|] == s[..n][i..i + |sub|];
    assert t[i..i + |sub|] == t[..n][i..i + |sub|];
  }

  /** `sub in s`. */
  predicate Contains(s: string, sub: string)
  {
    Find(s, sub, 0) >= 0
  }

  /** `s.startswith(p)`. */
  predicate StartsWith(s: string, p: string)
  {
    |p| <= |s| && s[..|p|] == p
  }

  /** An occurrence inside a slice is an occurrence in the whole string. */
  lemma ContainedInSlice(s: string, lo: nat, hi: nat, sub: string)
    requires lo <= hi <= |s| && Contains(s[lo..hi], sub)
    ensures Contains(s, sub)
  {
    var t := s[lo..hi];
    assert Contains(t, sub);
    var i := Find(t, sub, 0);
    assert i >= 0 && At(t, sub, i);
    assert t[i..i + |sub|] == s[lo + i..lo + i + |sub|];
    assert At(s, sub, lo + i);
  }

  /** Whatever occurs in the stripped string occurs in the string. */
  lemma ContainsThroughStrip(s: string, sub: string)
    requires Contains(Strip(s), sub)
    ensures Contains(s, sub)
  {
    var a := LeadingSpaces(s);
    var t := s[a..];
    var b := TrailingStart(t);
    assert Strip(s) == s[a..a + b];
    ContainedInSlice(s, a, a + b, sub);
  }

  /** Stripping adds no line break. */
  lemma NoBreakStrip(s: string)
    requires NoBreak(s)
    ensures NoBreak(Strip(s))
  {
    var a := LeadingSpaces(s);
    var t := s[a..];
    var b := TrailingStart(t);
    assert Strip(s) == s[a..a + b];
  }

  /** The first index holding `c`, which must occur. */
  function IndexOf(s: string, c: char): (k: nat)
    requires c in s
    ensures k < |s| && s[k] == c && c !in s[..k]
  {
    if s[0] == c then 0
    else
      var k := 1 + IndexOf(s[1..], c);
      assert s[..k] == [s[0]] + s[1..][..k - 1];
      k
  }

  /** `k` is the first index of `c` when `c` sits there and not before. */
  lemma {:induction false} IndexOfUnique(s: string, c: char, k: nat)
    requires k < |s| && s[k] == c && c !in s[..k]
    ensures IndexOf(s, c) == k
    decreases k
  {
    if k > 0 {
      assert s[0] == s[..k][0];
      assert s[1..][..k - 1] == s[..k][1..];
      IndexOfUnique(s[1..], c, k - 1);
    }
  }

  /** Splitting at the first `c` of `a + [c] + b` gives `a` and `b`. */
  lemma SplitOnceAt(a: string, c: char, b: string)
    requires c !in a
    ensures SplitOnce(a + [c] + b, c) == Some((a, b))
  {
    var s := a + [c] + b;
    assert s[..|a|] == a;
    IndexOfUnique(s, c, |a|);
    assert s[|a| + 1..] == b;
  }

  // ------------------------------------------------------------ split, join

  /** `sep.join(parts)`. */
  function Join(parts: seq<string>, sep: string): string
  {
    if |parts| == 0 then ""
    else if |parts| == 1 then parts[0]
    else parts[0] + sep + Join(parts[1..], sep)
  }

  /** `s.split(sep)` for a one-character separator: the pieces between
      separators, at least one. */
  function Split(s: string, sep: char): (parts: seq<string>)
    ensures |parts| >= 1
    ensures forall k :: 0 <= k < |parts| ==> sep !in parts[k]
    ensures Join(parts, [sep]) == s
    decreases |s|
  {
    if sep !in s then [s]
    else
      var k := IndexOf(s, sep);
      var rest := Split(s[k + 1..], sep);
      var parts := [s[..k]] + rest;
      assert parts[1..] == rest;
      assert s == s[..k] + [sep] + s[k + 1..];
      parts
  }

  /** Splitting a join of separator-free pieces gives the pieces back. */
  lemma {:induction false} SplitJoin(parts: seq<string>, sep: char)
    requires |parts| >= 1 && forall k :: 0 <= k < |parts| ==> sep !in parts[k]
    ensures Split(Join(parts, [sep]), sep) == parts
    decreases |parts|
  {
    if |parts| > 1 {
      var s := Join(parts, [sep]);
      var rest := Join(parts[1..], [sep]);
      assert s == parts[0] + [sep] + rest;
      assert s[|parts[0]|] == sep;
      assert s[..|parts[0]|] == parts[0];
      IndexOfUnique(s, sep, |parts[0]|);
      var k := IndexOf(s, sep);
      assert s[k + 1..] == rest;
      SplitJoin(parts[1..], sep);
    }
  }

  /** Splitting two separator-free pieces joined by the separator. */
  lemma SplitPair(x: string, y: string, sep: char)
    requires sep !in x && sep !in y
    ensures Split(x + [sep] + y, sep) == [x, y]
  {
    assert Join([x, y], [sep]) == x + [sep] + y;
    SplitJoin([x, y], sep);
  }

  /** `s.split(c, 1)` when `c` occurs: the text before and after the first `c`. */
  function SplitOnce(s: string, c: char): (r: Option<(string, string)>)
    ensures r.None? <==> c !in s
    ensures r.Some? ==> c !in r.value.0 && r.value.0 + [c] + r.value.1 == s
  {
    if c !in s then None
    else
      var k := IndexOf(s, c);
      assert s == s[..k] + [c] + s[k + 1..];
      Some((s[..k], s[k + 1..]))
  }

  /** `[t.strip() for t in raw.split(",") if t.strip()]`: the comma-separated
      tags, stripped, without empty ones. */
  function CommaTags(raw: string): (tags: seq<string>)
    ensures forall k :: 0 <= k < |tags| ==> |tags[k]| > 0 && Trimmed(tags[k]) && ',' !in tags[k]
  {
    KeepStripped(Split(raw, ','))
  }

  /** The stripped pieces that are not empty, in order. */
  function KeepStripped(pieces: seq<string>): (kept: seq<string>)
    requires forall k :: 0 <= k < |pieces| ==> ',' !in pieces[k]
    ensures |kept| <= |pieces|
    ensures forall k :: 0 <= k < |kept| ==> |kept[k]| > 0 && Trimmed(kept[k]) && ',' !in kept[k]
  {
    if |pieces| == 0 then []
    else
      var t := Strip(pieces[0]);
      var rest := KeepStripped(pieces[1..]);
      StripInside(pieces[0], ',');
      if |t| > 0 then [t] + rest else rest
  }

  /** A character absent from a string is absent from its stripped form. */
  lemma StripInside(s: string, c: char)
    requires c !in s
    ensures c !in Strip(s)
  {
    var t := s[LeadingSpaces(s)..];
    assert forall x :: x in t ==> x in s;
    assert forall x :: x in t[..TrailingStart(t)] ==> x in t;
  }

  // ------------------------------------------------------------- splitlines

  /** No line-break character in `s`. */
  predicate NoBreak(s: string)
  {
    forall k :: 0 <= k < |s| ==> !IsLineBreak(s[k])
  }

  /** The index of the first line break, or `|s|`. */
  function FirstBreak(s: string): (k: nat)
    ensures k <= |s| && NoBreak(s[..k])
    ensures k < |s| ==> IsLineBreak(s[k])
  {
    if |s| == 0 || IsLineBreak(s[0]) then 0
    else
      var k := 1 + FirstBreak(s[1..]);
      assert s[..k] == [s[0]] + s[1..][..k - 1];
      k
  }

  /** `k` is the first line break when one sits there and none before. */
  lemma {:induction false} FirstBreakUnique(s: string, k: nat)
    requires k <= |s| && NoBreak(s[..k]) && (k < |s| ==> IsLineBreak(s[k]))
    ensures FirstBreak(s) == k
    decreases k
  {
    if k > 0 {
      assert !IsLineBreak(s[..k][0]);
      assert s[1..][..k - 1] == s[..k][1..];
      FirstBreakUnique(s[1..], k - 1);
    }
  }

  /** `s.splitlines()`: the lines without their terminators; `\r\n` counts
      as one terminator, and a final terminator does not start a new line. */
  function SplitLines(s: string): (lines: seq<string>)
    ensures forall k :: 0 <= k < |lines| ==> NoBreak(lines[k])
    ensures |s| == 0 <==> |lines| == 0
    decreases |s|
  {
    if |s| == 0 then []
    else
      var k := FirstBreak(s);
      if k == |s| then [s]
      else
        var w := if s[k] == '\r' && k + 1 < |s| && s[k + 1] == '\n' then 2 else 1;
        [s[..k]] + SplitLines(s[k + w..])
  }

  /** Each line followed by `\n`: the text `splitlines` reads back. */
  function JoinLines(lines: seq<string>): string
  {
    if |lines| == 0 then "" else lines[0] + "\n" + JoinLines(lines[1..])
  }

  /** Lines written one per `\n`-terminated line read back unchanged. */
  lemma {:induction false} SplitLinesJoin(lines: seq<string>)
    requires forall k :: 0 <= k < |lines| ==> NoBreak(lines[k])
    ensures SplitLines(JoinLines(lines)) == lines
    decreases |lines|
  {
    if |lines| > 0 {
      var s := JoinLines(lines);
      var rest := JoinLines(lines[1..]);
      assert s == lines[0] + "\n" + rest;
      assert s[..|lines[0]|] == lines[0];
      assert s[|lines[0]|] == '\n';
      FirstBreakUnique(s, |lines[0]|);
      var k := FirstBreak(s);
      assert s[k + 1..] == rest;
      SplitLinesJoin(lines[1..]);
    }
  }

  // -------------------------------------------------- replace, lower, delete

  /** `s.replace(pat, rep)`: every non-overlapping occurrence, leftmost first. */
  function Replace(s: string, pat: string, rep: string): (r: string)
    requires |pat| > 0
    ensures !Contains(s, pat) ==> r == s
    decreases |s|
  {
    if |s| < |pat| then
      s
    else if s[..|pat|] == pat then
      assert At(s, pat, 0);
      rep + Replace(s[|pat|..], pat, rep)
    else
      var rest := Replace(s[1..], pat, rep);
      assert !Contains(s, pat) ==> !Contains(s[1..], pat) by {
        if Contains(s[1..], pat) { assert s[1..|s|] == s[1..]; ContainedInSlice(s, 1, |s|, pat); }
      }
      [s[0]] + rest
  }

  lemma ConsAppend<T>(a: seq<T>, v: seq<T>)
    requires |a| > 0
    ensures [a[0]] + (a[1..] + v) == a + v
  {
    assert a == [a[0]] + a[1..];
  }

  /** A first character that cannot start an occurrence passes through. */
  lemma ReplaceKeepsFront(s: string, pat: string, rep: string)
    requires |pat| > 0 && |s| > 0 && s[0] != pat[0]
    ensures Replace(s, pat, rep) == [s[0]] + Replace(s[1..], pat, rep)
  {
    if |s| >= |pat| {
      assert s[..|pat|][0] != pat[0];
    }
  }

  /** Text before which no occurrence can start passes through unchanged. */
  lemma {:induction false} ReplaceSkips(a: string, rest: string, pat: string, rep: string)
    requires |pat| > 0 && pat[0] !in a
    ensures Replace(a + rest, pat, rep) == a + Replace(rest, pat, rep)
    decreases |a|
  {
    if |a| > 0 {
      var s := a + rest;
      assert s[0] == a[0] && s[1..] == a[1..] + rest;
      ReplaceKeepsFront(s, pat, rep);
      ReplaceSkips(a[1..], rest, pat, rep);
      ConsAppend(a, Replace(rest, pat, rep));
    } else {
      assert a + rest == rest;
    }
  }

  /** An occurrence at the front is replaced. */
  lemma ReplaceFront(pat: string, rest: string, rep: string)
    requires |pat| > 0
    ensures Replace(pat + rest, pat, rep) == rep + Replace(rest, pat, rep)
  {
    var s := pat + rest;
    assert s[..|pat|] == pat;
    assert s[|pat|..] == rest;
  }

  /** `s.replace(a, b)` for one-character `a` and `b`. */
  function MapChar(s: string, a: char, b: char): (r: string)
    ensures |r| == |s|
    ensures forall k :: 0 <= k < |s| ==> r[k] == if s[k] == a then b else s[k]
  {
    seq(|s|, k requires 0 <= k < |s| => if s[k] == a then b else s[k])
  }

  /** `s.replace(c, "")`. */
  function DeleteChar(s: string, c: char): (r: string)
    ensures c !in r
    ensures c !in s ==> r == s
  {
    if |s| == 0 then ""
    else if s[0] == c then DeleteChar(s[1..], c)
    else
      assert s == [s[0]] + s[1..];
      [s[0]] + DeleteChar(s[1..], c)
  }

  function LowerChar(c: char): char
  {
    if 'A' <= c <= 'Z' then (c as int - 'A' as int + 'a' as int) as char else c
  }

  /** `str.lower()` on ASCII letters; other characters are kept. */
  function Lower(s: string): (r: string)
    ensures |r| == |s|
    ensures forall k :: 0 <= k < |s| ==> r[k] == LowerChar(s[k])
    ensures forall k :: 0 <= k < |s| ==> !('A' <= r[k] <= 'Z')
  {
    seq(|s|, k requires 0 <= k < |s| => LowerChar(s[k]))
  }
}

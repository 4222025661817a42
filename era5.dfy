/** The year-range filter `_filter_files` of process_era5_monthly_eof.py,
    which keeps the daily ERA5 downloads named `download<YYYY>...` whose
    year lies within optional inclusive bounds. A file is given by its name
    (the last component of its path). */
module Era5 {
  import opened Floats
  import opened Text
  import opened Dates

  /** `Path(name).stem`: the name without its last suffix. A dot at the very
      start or the very end does not begin a suffix. */
  function Stem(name: string): (stem: string)
    ensures |stem| <= |name| && stem == name[..|stem|]
  {
    var i := LastDot(name, |name|);
    if 0 < i < |name| - 1 then name[..i] else name
  }

  /** The index of the last `.` before `end`, or -1. */
  function LastDot(s: string, end: nat): (i: int)
    requires end <= |s|
    ensures -1 <= i < end
    ensures i >= 0 ==> s[i] == '.'
    ensures forall k :: i < k < end ==> s[k] != '.'
  {
    if end == 0 then -1 else if s[end - 1] == '.' then end - 1 else LastDot(s, end - 1)
  }

  /** `re.match(r'download(\d{4})', stem)`: the year when the stem begins with
      `download` and four digits. */
  function YearOf(stem: string): (y: Option<int>)
    ensures y.Some? ==> 0 <= y.value <= 9999
  {
    if |stem| >= 12 && stem[..8] == "download" && forall k :: 8 <= k < 12 ==> IsAsciiDigit(stem[k])
    then
      FourDigits(stem[8..12]);
      Some(Number(stem[8..12]))
    else None
  }

  /** A year is read exactly from a stem that begins with `download` and four
      digits, and it is the value of those digits. */
  lemma YearOfShape(stem: string)
    ensures YearOf(stem).Some? <==>
              |stem| >= 12 && StartsWith(stem, "download") && forall k :: 8 <= k < 12 ==> IsAsciiDigit(stem[k])
    ensures YearOf(stem).Some? ==> YearOf(stem).value == Number(stem[8..12])
  {
  }

  lemma FourDigits(d: string)
    requires |d| == 4 && forall k :: 0 <= k < 4 ==> IsAsciiDigit(d[k])
    ensures 0 <= Number(d) <= 9999
  {
    NumberBelow(d);
    assert Power10(4) == 10000;
  }

  /** Digits read as a number below the next power of ten. */
  lemma {:induction false} NumberBelow(d: string)
    requires forall k :: 0 <= k < |d| ==> IsAsciiDigit(d[k])
    ensures 0 <= Number(d) < Power10(|d|)
  {
    if |d| > 0 {
      NumberBelow(d[..|d| - 1]);
    }
  }

  /** Whether a file passes the filter. A missing bound imposes nothing. */
  predicate Keep(name: string, startYear: Option<int>, endYear: Option<int>)
  {
    var y := YearOf(Stem(name));
    y.Some? && (startYear.None? || y.value >= startYear.value) && (endYear.None? || y.value <= endYear.value)
  }

  /** The files that pass, in their original order. */
  function Selected(files: seq<string>, startYear: Option<int>, endYear: Option<int>): seq<string>
  {
    if |files| == 0 then []
    else
      var rest := Selected(files[..|files| - 1], startYear, endYear);
      if Keep(files[|files| - 1], startYear, endYear) then rest + [files[|files| - 1]] else rest
  }

  lemma SelectedStep(files: seq<string>, n: nat, startYear: Option<int>, endYear: Option<int>)
    requires n < |files|
    ensures Selected(files[..n + 1], startYear, endYear) ==
              if Keep(files[n], startYear, endYear) then Selected(files[..n], startYear, endYear) + [files[n]]
              else Selected(files[..n], startYear, endYear)
  {
    assert files[..n + 1][..n] == files[..n];
  }

  /** `_filter_files`: the loop with `continue` and `append`. */
  method FilterFiles(files: seq<string>, startYear: Option<int>, endYear: Option<int>) returns (selected: seq<string>)
    ensures selected == Selected(files, startYear, endYear)
  {
    selected := [];
    for n := 0 to |files|
      invariant selected == Selected(files[..n], startYear, endYear)
    {
      SelectedStep(files, n, startYear, endYear);
      var f := files[n];
      var year := YearOf(Stem(f));
      assert Keep(f, startYear, endYear) <==>
        (year.Some? && (startYear.None? || year.value >= startYear.value) && (endYear.None? || year.value <= endYear.value));
      if year.None? {
        continue;
      }
      if startYear.Some? && year.value < startYear.value {
        continue;
      }
      if endYear.Some? && year.value > endYear.value {
        continue;
      }
      selected := selected + [f];
    }
    assert files[..|files|] == files;
  }

  /** `sub` is `s` with some elements removed and the rest kept in order. */
  predicate Subsequence(sub: seq<string>, s: seq<string>)
    decreases |s|
  {
    if |sub| == 0 then true
    else if |s| == 0 then false
    else if sub[|sub| - 1] == s[|s| - 1] then Subsequence(sub[..|sub| - 1], s[..|s| - 1])
    else Subsequence(sub, s[..|s| - 1])
  }

  /** The result keeps the input's order. */
  lemma {:induction false} SelectedIsSubsequence(files: seq<string>, startYear: Option<int>, endYear: Option<int>)
    ensures Subsequence(Selected(files, startYear, endYear), files)
  {
    if |files| > 0 {
      var init := files[..|files| - 1];
      SelectedIsSubsequence(init, startYear, endYear);
      var rest := Selected(init, startYear, endYear);
      if Keep(files[|files| - 1], startYear, endYear) {
        var out := rest + [files[|files| - 1]];
        assert out[..|out| - 1] == rest;
      } else {
        SubsequenceOfPrefix(rest, init, files);
      }
    }
  }

  /** A subsequence of a prefix is a subsequence of the whole. */
  lemma {:induction false} SubsequenceOfPrefix(sub: seq<string>, init: seq<string>, s: seq<string>)
    requires |s| == |init| + 1 && s[..|init|] == init && Subsequence(sub, init)
    ensures Subsequence(sub, s)
    decreases |s|, 1
  {
    if |sub| > 0 && sub[|sub| - 1] == s[|s| - 1] {
      SubsequenceDropLast(sub, init);
    }
  }

  /** Dropping the last element of a subsequence keeps it a subsequence. */
  lemma {:induction false} SubsequenceDropLast(sub: seq<string>, s: seq<string>)
    requires |sub| > 0 && Subsequence(sub, s)
    ensures Subsequence(sub[..|sub| - 1], s)
    decreases |s|, 2
  {
    if sub[|sub| - 1] != s[|s| - 1] {
      SubsequenceDropLast(sub, s[..|s| - 1]);
      SubsequenceOfPrefix(sub[..|sub| - 1], s[..|s| - 1], s);
    } else {
      SubsequenceOfPrefix(sub[..|sub| - 1], s[..|s| - 1], s);
    }
  }

  /** A file is in the result exactly when it is in the input and passes. */
  lemma {:induction false} SelectedMembers(files: seq<string>, startYear: Option<int>, endYear: Option<int>, f: string)
    ensures f in Selected(files, startYear, endYear) <==> f in files && Keep(f, startYear, endYear)
  {
    if |files| > 0 {
      var init := files[..|files| - 1];
      SelectedMembers(init, startYear, endYear, f);
      assert files == init + [files[|files| - 1]];
    }
  }

  /** `download2001.nc` has year 2001. */
  lemma DownloadYear()
    ensures YearOf(Stem("download2001.nc")) == Some(2001)
  {
    var n := "download2001.nc";
    assert LastDot(n, 13) == 12;
    assert LastDot(n, |n|) == 12;
    assert Stem(n) == "download2001";
    assert Stem(n)[8..12] == "2001";
    assert Number("2001") == 2001 by {
      assert Number("2") == 2 by { assert "2"[..0] == ""; }
      assert Number("20") == 20 by { assert "20"[..1] == "2"; }
      assert Number("200") == 200 by { assert "200"[..2] == "20"; }
      assert "2001"[..3] == "200";
    }
  }

  /** `era5_2001.nc` is dropped whatever the bounds. */
  lemma OtherNameDropped(startYear: Option<int>, endYear: Option<int>)
    ensures !Keep("era5_2001.nc", startYear, endYear)
  {
    var m := "era5_2001.nc";
    assert LastDot(m, 10) == 9;
    assert LastDot(m, |m|) == 9;
    var stem := Stem(m);
    assert stem == "era5_2001";
    assert stem[0] == 'e';
    assert stem[..8] != "download" by {
      assert stem[..8][0] == 'e';
    }
  }
}

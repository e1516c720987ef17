/** Cell text normalisation of the table parser: Python's `str.strip()` and the
    `re.sub(' +', ' ', ...)` collapse of space runs. */
module Text {

  /** The characters Python's `str.strip()` removes (those for which
      `str.isspace()` holds). Note that the no-break space U+00A0 is one. */
  predicate IsSpace(c: char) {
    || c == ' '
    || ('\t' <= c <= '\r')
    || ('\U{1c}' <= c <= '\U{1f}')
    || c == '\U{85}' || c == '\U{a0}' || c == '\U{1680}'
    || ('\U{2000}' <= c <= '\U{200a}')
    || c == '\U{2028}' || c == '\U{2029}' || c == '\U{202f}'
    || c == '\U{205f}' || c == '\U{3000}'
  }

  /** No leading and no trailing whitespace. */
  predicate Trimmed(s: string) {
    |s| > 0 ==> !IsSpace(s[0]) && !IsSpace(s[|s| - 1])
  }

  /** No two consecutive ASCII spaces. */
  predicate NoDoubleSpace(s: string) {
    forall i :: 0 <= i < |s| - 1 ==> !(s[i] == ' ' && s[i + 1] == ' ')
  }

  /** The characters of `s` other than the ASCII space, in order. */
  function NonSpaces(s: string): (r: string)
    ensures |r| <= |s|
    ensures ' ' !in r
  {
    if |s| == 0 then ""
    else if s[0] == ' ' then NonSpaces(s[1..])
    else [s[0]] + NonSpaces(s[1..])
  }

  lemma {:induction false} NonSpacesAppend(a: string, b: string)
    ensures NonSpaces(a + b) == NonSpaces(a) + NonSpaces(b)
  {
    if |a| > 0 {
      assert (a + b)[1..] == a[1..] + b;
      NonSpacesAppend(a[1..], b);
    } else {
      assert a + b == b;
    }
  }

  /** Every character of `t` is whitespace. */
  predicate AllSpace(t: string) {
    forall i :: 0 <= i < |t| ==> IsSpace(t[i])
  }

  /** The first index at or after `i` that does not hold whitespace, or `|s|`. */
  function SkipSpaces(s: string, i: nat): (n: nat)
    requires i <= |s|
    ensures i <= n <= |s|
    ensures forall k :: i <= k < n ==> IsSpace(s[k])
    ensures n < |s| ==> !IsSpace(s[n])
    decreases |s| - i
  {
    if i < |s| && IsSpace(s[i]) then SkipSpaces(s, i + 1) else i
  }

  /** The end of `s[..j]` once its trailing whitespace is dropped. */
  function SkipSpacesBack(s: string, j: nat): (n: nat)
    requires j <= |s|
    ensures n <= j
    ensures forall k :: n <= k < j ==> IsSpace(s[k])
    ensures n > 0 ==> !IsSpace(s[n - 1])
  {
    if j > 0 && IsSpace(s[j - 1]) then SkipSpacesBack(s, j - 1) else j
  }

  /** `s.lstrip()`: the suffix of `s` left after its leading whitespace. */
  function TrimStart(s: string): (r: string)
    ensures |r| <= |s| && r == s[|s| - |r|..]
    ensures AllSpace(s[..|s| - |r|])
    ensures |r| > 0 ==> !IsSpace(r[0])
  {
    var n := SkipSpaces(s, 0);
    assert forall k :: 0 <= k < n ==> s[..n][k] == s[k];
    s[n..]
  }

  /** `s.rstrip()`: the prefix of `s` left before its trailing whitespace. */
  function TrimEnd(s: string): (r: string)
    ensures |r| <= |s| && r == s[..|r|]
    ensures AllSpace(s[|r|..])
    ensures |r| > 0 ==> !IsSpace(r[|r| - 1])
  {
    var n := SkipSpacesBack(s, |s|);
    assert forall k :: 0 <= k < |s| - n ==> s[n..][k] == s[n + k];
    s[..n]
  }

  /** `r` is the slice of `s` starting at `lo`, and everything of `s` outside
      that slice is whitespace. */
  predicate SliceBetweenSpaces(s: string, r: string, lo: int) {
    && 0 <= lo <= |s| - |r|
    && r == s[lo..lo + |r|]
    && AllSpace(s[..lo])
    && AllSpace(s[lo + |r|..])
  }

  /** Python's `s.strip()`: the result is the slice of `s` left after removing
      the whitespace at both ends, and it starts and ends with a non-space. */
  function Strip(s: string): (r: string)
    ensures Trimmed(r)
    ensures exists lo :: SliceBetweenSpaces(s, r, lo)
  {
    var r := TrimEnd(TrimStart(s));
    TrimBoth(s);
    r
  }

  lemma TrimBoth(s: string)
    ensures SliceBetweenSpaces(s, TrimEnd(TrimStart(s)), |s| - |TrimStart(s)|)
  {
    var a := TrimStart(s);
    var r := TrimEnd(a);
    var lo := |s| - |a|;
    assert r == s[lo..lo + |r|];
    assert s[lo + |r|..] == a[|r|..];
  }

  lemma {:induction false} SkipSpacesAt(s: string, i: nat, n: nat)
    requires i <= n <= |s|
    requires forall k :: i <= k < n ==> IsSpace(s[k])
    requires n < |s| ==> !IsSpace(s[n])
    ensures SkipSpaces(s, i) == n
    decreases n - i
  {
    if i < n {
      SkipSpacesAt(s, i + 1, n);
    }
  }

  lemma {:induction false} SkipSpacesBackAt(s: string, j: nat, n: nat)
    requires n <= j <= |s|
    requires forall k :: n <= k < j ==> IsSpace(s[k])
    requires n > 0 ==> !IsSpace(s[n - 1])
    ensures SkipSpacesBack(s, j) == n
  {
    if n < j {
      SkipSpacesBackAt(s, j - 1, n);
    }
  }

  lemma TrimStartAt(s: string, n: nat)
    requires n <= |s| && AllSpace(s[..n])
    requires n < |s| ==> !IsSpace(s[n])
    ensures TrimStart(s) == s[n..]
  {
    assert forall k :: 0 <= k < n ==> s[k] == s[..n][k];
    SkipSpacesAt(s, 0, n);
  }

  lemma TrimEndAt(s: string, n: nat)
    requires n <= |s| && AllSpace(s[n..])
    requires n > 0 ==> !IsSpace(s[n - 1])
    ensures TrimEnd(s) == s[..n]
  {
    assert forall k :: n <= k < |s| ==> s[k] == s[n..][k - n];
    SkipSpacesBackAt(s, |s|, n);
  }

  /** `Strip` is the only trimmed slice of `s` with nothing but whitespace
      around it: the characterisation above pins the result down. */
  lemma StripUnique(s: string, r: string, lo: int)
    requires SliceBetweenSpaces(s, r, lo) && Trimmed(r)
    ensures Strip(s) == r
  {
    if |r| > 0 {
      StripUniqueText(s, r, lo);
    } else {
      StripUniqueBlank(s, lo);
    }
  }

  lemma StripUniqueText(s: string, r: string, lo: int)
    requires SliceBetweenSpaces(s, r, lo) && Trimmed(r) && |r| > 0
    ensures TrimEnd(TrimStart(s)) == r
  {
    assert s[lo] == r[0];
    TrimStartAt(s, lo);
    var a := s[lo..];
    assert a[|r|..] == s[lo + |r|..];
    assert a[|r| - 1] == r[|r| - 1];
    TrimEndAt(a, |r|);
    assert a[..|r|] == r;
  }

  lemma StripUniqueBlank(s: string, lo: int)
    requires SliceBetweenSpaces(s, "", lo)
    ensures TrimEnd(TrimStart(s)) == ""
  {
    assert AllSpace(s[..|s|]) by {
      assert forall k :: 0 <= k < lo ==> s[k] == s[..lo][k];
      assert forall k :: lo <= k < |s| ==> s[k] == s[lo..][k - lo];
    }
    TrimStartAt(s, |s|);
  }

  /** A string that is already trimmed is left alone by `Strip`. */
  lemma StripTrimmed(s: string)
    requires Trimmed(s)
    ensures Strip(s) == s
  {
  }

  /** `re.sub(' +', ' ', s)`: every run of ASCII spaces becomes one space.
      Tabs, newlines and other whitespace are kept as they are. */
  function CollapseSpaces(s: string): string
  {
    if |s| <= 1 then s
    else if s[0] == ' ' && s[1] == ' ' then CollapseSpaces(s[1..])
    else [s[0]] + CollapseSpaces(s[1..])
  }

  /** The collapse never lengthens a text and keeps its first and last character. */
  lemma {:induction false} CollapseEnds(s: string)
    ensures var r := CollapseSpaces(s);
            |r| <= |s| && (|s| > 0 ==> |r| > 0 && r[0] == s[0] && r[|r| - 1] == s[|s| - 1])
  {
    if |s| > 1 {
      CollapseEnds(s[1..]);
    }
  }

  /** The collapse leaves no two consecutive spaces behind. */
  lemma {:induction false} CollapseNoDoubleSpace(s: string)
    ensures NoDoubleSpace(CollapseSpaces(s))
  {
    if |s| > 1 {
      CollapseNoDoubleSpace(s[1..]);
      if !(s[0] == ' ' && s[1] == ' ') {
        CollapseEnds(s[1..]);
        var t := CollapseSpaces(s[1..]);
        assert t[0] == s[1];
        var r := [s[0]] + t;
        forall i | 0 <= i < |r| - 1
          ensures !(r[i] == ' ' && r[i + 1] == ' ')
        {
          if i > 0 {
            assert r[i] == t[i - 1] && r[i + 1] == t[i];
          }
        }
      }
    }
  }

  /** The collapse removes spaces only: every other character survives, in order. */
  lemma {:induction false} CollapseKeepsNonSpaces(s: string)
    ensures NonSpaces(CollapseSpaces(s)) == NonSpaces(s)
  {
    if |s| > 1 {
      CollapseKeepsNonSpaces(s[1..]);
      if !(s[0] == ' ' && s[1] == ' ') {
        NonSpacesAppend([s[0]], CollapseSpaces(s[1..]));
        NonSpacesAppend([s[0]], s[1..]);
        assert s == [s[0]] + s[1..];
      }
    }
  }

  /** The collapse changes a string exactly when it holds two consecutive spaces. */
  lemma {:induction false} CollapseIdentity(s: string)
    ensures CollapseSpaces(s) == s <==> NoDoubleSpace(s)
  {
    if NoDoubleSpace(s) {
      CollapseFixesNoDoubleSpace(s);
    } else {
      CollapseNoDoubleSpace(s);
    }
  }

  lemma {:induction false} CollapseFixesNoDoubleSpace(s: string)
    requires NoDoubleSpace(s)
    ensures CollapseSpaces(s) == s
  {
    if |s| > 1 {
      assert !(s[0] == ' ' && s[1] == ' ');
      assert NoDoubleSpace(s[1..]) by {
        forall i | 0 <= i < |s[1..]| - 1
          ensures !(s[1..][i] == ' ' && s[1..][i + 1] == ' ')
        {
          assert s[1..][i] == s[i + 1] && s[1..][i + 1] == s[i + 2];
        }
      }
      CollapseFixesNoDoubleSpace(s[1..]);
      assert s == [s[0]] + s[1..];
    }
  }

  /** Text of a header cell (`th`): stripped, inner spaces kept as they are. */
  function HeaderText(s: string): (r: string)
    ensures Trimmed(r)
    ensures exists lo :: SliceBetweenSpaces(s, r, lo)
  {
    Strip(s)
  }

  /** Text of a data cell (`td`): stripped, then space runs collapsed. */
  function NormalizeCell(s: string): (r: string)
    ensures Trimmed(r)
    ensures NoDoubleSpace(r)
    ensures NonSpaces(r) == NonSpaces(Strip(s))
    ensures NoDoubleSpace(Strip(s)) ==> r == Strip(s)
  {
    var t := Strip(s);
    CollapseIdentity(t);
    CollapseEnds(t);
    CollapseNoDoubleSpace(t);
    CollapseKeepsNonSpaces(t);
    CollapseSpaces(t)
  }

  /** A cell of two trimmed words with a run of spaces between them is read
      with exactly one space there. */
  lemma NormalizeCellRun(a: string, n: nat, b: string)
    requires n >= 1 && |a| > 0 && |b| > 0 && Trimmed(a) && Trimmed(b)
    ensures NormalizeCell(a + Spaces(n) + b) == CollapseSpaces(a) + " " + CollapseSpaces(b)
  {
    var s := a + Spaces(n) + b;
    assert s[0] == a[0] && s[|s| - 1] == b[|b| - 1];
    StripTrimmed(s);
    CollapseRun(a, n, b);
  }

  /** Normalising an already normalised cell changes nothing. */
  lemma NormalizeCellIdempotent(s: string)
    ensures NormalizeCell(NormalizeCell(s)) == NormalizeCell(s)
  {
    var n := NormalizeCell(s);
    StripTrimmed(n);
    CollapseFixesNoDoubleSpace(n);
  }

  /** `n` ASCII spaces. */
  function Spaces(n: nat): (r: string)
    ensures |r| == n && forall i :: 0 <= i < n ==> r[i] == ' '
  {
    if n == 0 then "" else [' '] + Spaces(n - 1)
  }

  /** A run of one or more spaces between two pieces becomes exactly one
      space, and each piece is collapsed on its own: the pieces may hold
      further runs of their own. */
  lemma {:induction false} CollapseRun(a: string, n: nat, b: string)
    requires n >= 1
    requires |a| > 0 ==> a[|a| - 1] != ' '
    requires |b| > 0 ==> b[0] != ' '
    ensures CollapseSpaces(a + Spaces(n) + b) == CollapseSpaces(a) + " " + CollapseSpaces(b)
  {
    var m := Spaces(n) + b;
    assert a + Spaces(n) + b == a + m;
    assert m[0] == ' ';
    LeadingRun(n, b);
    CollapseBeforeRun(a, m, " " + CollapseSpaces(b));
    assert CollapseSpaces(a) + (" " + CollapseSpaces(b))
        == CollapseSpaces(a) + " " + CollapseSpaces(b);
  }

  /** Collapsing `a + m`, where `m` starts with a space and `a` does not end
      with one, collapses `a` on its own in front of the collapse of `m`. */
  lemma {:induction false} CollapseBeforeRun(a: string, m: string, tail: string)
    requires |a| > 0 ==> a[|a| - 1] != ' '
    requires |m| > 0 && m[0] == ' '
    requires CollapseSpaces(m) == tail
    ensures CollapseSpaces(a + m) == CollapseSpaces(a) + tail
  {
    if |a| == 0 {
      assert a + m == m;
      assert CollapseSpaces(a) == [];
      assert [] + tail == tail;
    } else {
      var a' := a[1..];
      assert |a'| > 0 ==> a'[|a'| - 1] == a[|a| - 1];
      CollapseBeforeRun(a', m, tail);
      CollapseBeforeRunStep(a, m, tail);
    }
  }

  /** The step of `CollapseBeforeRun` for a non-empty left piece. */
  lemma CollapseBeforeRunStep(a: string, m: string, tail: string)
    requires |a| > 0 && a[|a| - 1] != ' ' && |m| > 0 && m[0] == ' '
    requires CollapseSpaces(a[1..] + m) == CollapseSpaces(a[1..]) + tail
    ensures CollapseSpaces(a + m) == CollapseSpaces(a) + tail
  {
    if |a| == 1 {
      assert a[1..] == [] && a[1..] + m == m;
      assert CollapseSpaces(a[1..]) == [];
      LastBeforeRun(a, m);
    } else if a[0] == ' ' && a[1] == ' ' {
      DropBeforeRun(a, m, tail);
    } else {
      KeepBeforeRun(a, m, tail);
    }
  }

  lemma DropBeforeRun(a: string, m: string, tail: string)
    requires |a| > 1 && a[0] == ' ' && a[1] == ' '
    requires CollapseSpaces(a[1..] + m) == CollapseSpaces(a[1..]) + tail
    ensures CollapseSpaces(a + m) == CollapseSpaces(a) + tail
  {
    var rest := a[1..] + m;
    assert a + m == [a[0]] + rest;
    assert a == [a[0]] + a[1..];
    DropCollapse(a[0], rest);
    DropCollapse(a[0], a[1..]);
  }

  lemma KeepBeforeRun(a: string, m: string, tail: string)
    requires |a| > 1 && !(a[0] == ' ' && a[1] == ' ')
    requires CollapseSpaces(a[1..] + m) == CollapseSpaces(a[1..]) + tail
    ensures CollapseSpaces(a + m) == CollapseSpaces(a) + tail
  {
    var rest := a[1..] + m;
    assert a + m == [a[0]] + rest;
    assert a == [a[0]] + a[1..];
    KeepCollapse(a[0], a[1..], rest, tail);
  }

  /** The last character of the left piece, right before the run. */
  lemma LastBeforeRun(a: string, m: string)
    requires |a| == 1 && a[0] != ' ' && |m| > 0 && m[0] == ' '
    ensures CollapseSpaces(a + m) == a + CollapseSpaces(m)
  {
    assert a + m == [a[0]] + m && a == [a[0]];
    ConsCollapse(a[0], m);
  }

  /** A kept first character stays in front of both collapses. */
  lemma KeepCollapse(c: char, a: string, rest: string, tail: string)
    requires |a| > 0 && |rest| > 0 && rest[0] == a[0] && !(c == ' ' && a[0] == ' ')
    requires CollapseSpaces(rest) == CollapseSpaces(a) + tail
    ensures CollapseSpaces([c] + rest) == CollapseSpaces([c] + a) + tail
  {
    ConsCollapseTail(c, a, rest, tail);
    ConsCollapse(c, a);
  }

  lemma ConsCollapseTail(c: char, a: string, rest: string, tail: string)
    requires |rest| > 0 && !(c == ' ' && rest[0] == ' ')
    requires CollapseSpaces(rest) == CollapseSpaces(a) + tail
    ensures CollapseSpaces([c] + rest) == [c] + CollapseSpaces(a) + tail
  {
    ConsCollapse(c, rest);
    assert [c] + (CollapseSpaces(a) + tail) == [c] + CollapseSpaces(a) + tail;
  }

  /** A space followed by another space is dropped. */
  lemma DropCollapse(c: char, t: string)
    requires c == ' ' && |t| > 0 && t[0] == ' '
    ensures CollapseSpaces([c] + t) == CollapseSpaces(t)
  {
    assert ([c] + t)[1..] == t;
  }

  /** A character that does not start a double space is kept in front. */
  lemma ConsCollapse(c: char, t: string)
    requires !(c == ' ' && |t| > 0 && t[0] == ' ')
    ensures CollapseSpaces([c] + t) == [c] + CollapseSpaces(t)
  {
    assert ([c] + t)[1..] == t;
  }

  /** A leading run of spaces becomes one space in front of the collapsed rest. */
  lemma {:induction false} LeadingRun(n: nat, b: string)
    requires n >= 1
    requires |b| > 0 ==> b[0] != ' '
    ensures CollapseSpaces(Spaces(n) + b) == " " + CollapseSpaces(b)
  {
    var x := Spaces(n) + b;
    if n == 1 {
      assert x == [' '] + b;
      ConsCollapse(' ', b);
    } else {
      assert x[0] == ' ' && x[1] == ' ';
      assert x[1..] == Spaces(n - 1) + b;
      LeadingRun(n - 1, b);
    }
  }

  lemma StripExample()
    ensures Strip("foo   bar\n") == "foo   bar"
  {
    var s, r := "foo   bar\n", "foo   bar";
    assert s[..0] == [] && s[0..9] == r && s[9..] == "\n";
    assert IsSpace(s[9..][0]);
    StripUnique(s, r, 0);
  }

  lemma CollapseExample()
    ensures CollapseSpaces("foo   bar") == "foo bar"
  {
    var a, b := "foo", "bar";
    assert Spaces(3) == "   ";
    assert a + Spaces(3) + b == "foo   bar";
    CollapseRun(a, 3, b);
    CollapseFixesNoDoubleSpace(a);
    CollapseFixesNoDoubleSpace(b);
    assert a + " " + b == "foo bar";
  }

  /** Each of several runs becomes one space: "a  b  c" is read as "a b c". */
  lemma CollapseTwoRunsExample()
    ensures CollapseSpaces("a  b  c") == "a b c"
  {
    var a, b, c := "a", "b", "c";
    assert Spaces(2) == "  ";
    assert b + Spaces(2) + c == "b  c";
    assert a + Spaces(2) + "b  c" == "a  b  c";
    CollapseRun(b, 2, c);
    CollapseRun(a, 2, "b  c");
    assert CollapseSpaces(a) == a && CollapseSpaces(b) == b && CollapseSpaces(c) == c;
  }

  /** A cell "foo   bar\n" is read as "foo bar". */
  lemma NormalizeCellExample()
    ensures NormalizeCell("foo   bar\n") == "foo bar"
  {
    StripExample();
    CollapseExample();
  }

  /** Header cells are stripped but their inner space runs are kept. */
  lemma HeaderTextKeepsInnerSpaces()
    ensures HeaderText(" na  1e ") == "na  1e"
  {
    var s, r := " na  1e ", "na  1e";
    assert s[..1] == " " && s[1..7] == r && s[7..] == " ";
    StripUnique(s, r, 1);
  }
}

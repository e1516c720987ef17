/** Run-level glue around the scraper: the inclusive list of months between
    the two months the user enters, how each list entry is split back into
    year and month, and the names of the three output files. */
module Months {
  import opened Digits
  import opened Split

  /** A calendar month. */
  datatype Month = Month(year: nat, month: nat)

  predicate Valid(m: Month) {
    1 <= m.month <= 12
  }

  /** Months counted from January of year 0. */
  function Index(m: Month): nat
    requires Valid(m)
  {
    m.year * 12 + m.month - 1
  }

  function FromIndex(i: nat): (m: Month)
    ensures Valid(m) && Index(m) == i
  {
    Month(i / 12, i % 12 + 1)
  }

  /** A valid month is determined by its index. */
  lemma IndexInjective(a: Month, b: Month)
    requires Valid(a) && Valid(b)
    ensures Index(a) == Index(b) <==> a == b
  {
    if Index(a) == Index(b) {
      assert a.year == Index(a) / 12 && b.year == Index(b) / 12;
    }
  }

  /** The months from `first` to `last`, both included, one after another;
      empty when `last` comes before `first`. This is what
      `pd.date_range(first-01, last-01 + 1 month, freq='M')` yields, one
      month end per month. */
  function MonthRange(first: Month, last: Month): (r: seq<Month>)
    requires Valid(first) && Valid(last)
    ensures |r| == if Index(last) < Index(first) then 0 else Index(last) - Index(first) + 1
    ensures forall k :: 0 <= k < |r| ==> Valid(r[k]) && Index(r[k]) == Index(first) + k
    ensures |r| > 0 ==> r[0] == first && r[|r| - 1] == last
    ensures forall m :: Valid(m) && Index(first) <= Index(m) <= Index(last) ==> m in r
  {
    var n := if Index(last) < Index(first) then 0 else Index(last) - Index(first) + 1;
    var r := Consecutive(Index(first), n);
    RangeEnds(first, last, r);
    RangeCovers(first, last, r);
    r
  }

  /** `n` months, starting with the one of index `start`. */
  function Consecutive(start: nat, n: nat): (r: seq<Month>)
    ensures |r| == n
    ensures forall k :: 0 <= k < n ==> Valid(r[k]) && Index(r[k]) == start + k
  {
    var r := seq(n, k requires 0 <= k < n => FromIndex(start + k));
    assert forall k :: 0 <= k < n ==> r[k] == FromIndex(start + k);
    r
  }

  lemma RangeEnds(first: Month, last: Month, r: seq<Month>)
    requires Valid(first) && Valid(last)
    requires forall k :: 0 <= k < |r| ==> Valid(r[k]) && Index(r[k]) == Index(first) + k
    requires |r| > 0 ==> Index(last) == Index(first) + |r| - 1
    ensures |r| > 0 ==> r[0] == first && r[|r| - 1] == last
  {
    if |r| > 0 {
      IndexInjective(r[0], first);
      IndexInjective(r[|r| - 1], last);
    }
  }

  lemma RangeCovers(first: Month, last: Month, r: seq<Month>)
    requires Valid(first) && Valid(last)
    requires forall k :: 0 <= k < |r| ==> Valid(r[k]) && Index(r[k]) == Index(first) + k
    requires Index(first) <= Index(last) ==> |r| == Index(last) - Index(first) + 1
    ensures forall m :: Valid(m) && Index(first) <= Index(m) <= Index(last) ==> m in r
  {
    forall m | Valid(m) && Index(first) <= Index(m) <= Index(last)
      ensures m in r
    {
      var k := Index(m) - Index(first);
      IndexInjective(r[k], m);
    }
  }

  /** `strftime('%Y-%#m')`: the year, a dash, the month without a leading zero. */
  function MonthText(m: Month): string
  {
    NatText(m.year) + "-" + NatText(m.month)
  }

  /** `my_months`: the text of every month of the range. */
  function MonthList(first: Month, last: Month): (r: seq<string>)
    requires Valid(first) && Valid(last)
    ensures |r| == |MonthRange(first, last)|
  {
    var ms := MonthRange(first, last);
    seq(|ms|, k requires 0 <= k < |ms| => MonthText(ms[k]))
  }

  /** `month.split('-')` on an entry of the month list gives the year text
      and the month text, and reading those back gives the year and month of
      the `k`-th month after `first`. */
  lemma MonthListSplits(first: Month, last: Month, k: nat)
    requires Valid(first) && Valid(last) && k < |MonthList(first, last)|
    ensures var parts := SplitOn(MonthList(first, last)[k], '-');
            var m := MonthRange(first, last)[k];
            && |parts| == 2
            && parts == [NatText(m.year), NatText(m.month)]
            && AllDigits(parts[0]) && AllDigits(parts[1])
            && Month(ParseNat(parts[0]), ParseNat(parts[1])) == m
            && Index(m) == Index(first) + k
  {
    var m := MonthRange(first, last)[k];
    var parts := [NatText(m.year), NatText(m.month)];
    assert '-' !in NatText(m.year) by {
      assert forall i :: 0 <= i < |NatText(m.year)| ==> IsDigit(NatText(m.year)[i]);
    }
    assert '-' !in NatText(m.month) by {
      assert forall i :: 0 <= i < |NatText(m.month)| ==> IsDigit(NatText(m.month)[i]);
    }
    assert Join(parts, '-') == MonthText(m) by {
      assert parts[1..] == [NatText(m.month)];
    }
    SplitJoin(parts, '-');
    ParseNatText(m.year);
    ParseNatText(m.month);
  }

  /** The text the user is asked for, e.g. "2013-02": a four-digit year, a
      dash, a two-digit month. */
  function InputText(m: Month): string
  {
    PadNat(m.year, 4) + "-" + PadNat(m.month, 2)
  }

  const EventsPrefix: string := "events_"
  const ResultsPrefix: string := "results_"
  const ErrorsPrefix: string := "errors_"

  /** `prefix + first.replace('-', '') + 'to' + last.replace('-', '') + '.csv'`. */
  function OutputName(prefix: string, first: string, last: string): (name: string)
    ensures |name| >= |prefix| + 6
    ensures name[..|prefix|] == prefix && name[|name| - 4..] == ".csv"
  {
    prefix + RemoveChar(first, '-') + "to" + RemoveChar(last, '-') + ".csv"
  }

  /** For months entered as the user is asked to, the name holds the two
      six-digit months `YYYYMM`. */
  lemma OutputNameOfMonths(prefix: string, a: Month, b: Month)
    requires Valid(a) && Valid(b) && a.year < 10000 && b.year < 10000
    ensures OutputName(prefix, InputText(a), InputText(b)) ==
              prefix + (PadNat(a.year, 4) + PadNat(a.month, 2)) + "to"
                     + (PadNat(b.year, 4) + PadNat(b.month, 2)) + ".csv"
    ensures |PadNat(a.year, 4) + PadNat(a.month, 2)| == 6
    ensures |PadNat(b.year, 4) + PadNat(b.month, 2)| == 6
  {
    CompactInput(a);
    CompactInput(b);
  }

  lemma CompactInput(m: Month)
    requires Valid(m) && m.year < 10000
    ensures RemoveChar(InputText(m), '-') == PadNat(m.year, 4) + PadNat(m.month, 2)
    ensures |PadNat(m.year, 4)| == 4 && |PadNat(m.month, 2)| == 2
  {
    assert Pow10(4) == 10000 && Pow10(2) == 100;
    var y := PadNat(m.year, 4);
    var mo := PadNat(m.month, 2);
    NoDashInDigits(y);
    NoDashInDigits(mo);
    RemoveCharAppend(y + "-", mo, '-');
    RemoveCharAppend(y, "-", '-');
    assert RemoveChar("-", '-') == "" by {
      assert "-"[1..] == "";
    }
  }

  lemma NoDashInDigits(s: string)
    requires AllDigits(s)
    ensures '-' !in s
  {
    assert forall i :: 0 <= i < |s| ==> IsDigit(s[i]);
  }

  /** Two names built around six-character middles agree only if the middles do. */
  lemma SplitName(prefix: string, x: string, y: string, x': string, y': string)
    requires |x| == 6 && |y| == 6 && |x'| == 6 && |y'| == 6
    requires prefix + x + "to" + y + ".csv" == prefix + x' + "to" + y' + ".csv"
    ensures x == x' && y == y'
  {
    var n := prefix + x + "to" + y + ".csv";
    var n' := prefix + x' + "to" + y' + ".csv";
    var p := |prefix|;
    assert n[p..p + 6] == x;
    assert n'[p..p + 6] == x';
    assert n[p + 8..p + 14] == y;
    assert n'[p + 8..p + 14] == y';
  }

  /** The six-digit `YYYYMM` form determines the month. */
  lemma CompactInjective(a: Month, c: Month)
    requires Valid(a) && Valid(c) && a.year < 10000 && c.year < 10000
    requires PadNat(a.year, 4) + PadNat(a.month, 2) == PadNat(c.year, 4) + PadNat(c.month, 2)
    ensures a == c
  {
    CompactInput(a);
    CompactInput(c);
    var x := PadNat(a.year, 4) + PadNat(a.month, 2);
    assert x[..4] == PadNat(a.year, 4) && x[..4] == PadNat(c.year, 4);
    assert x[4..] == PadNat(a.month, 2) && x[4..] == PadNat(c.month, 2);
  }

  /** Runs over different month ranges write to different files. */
  lemma OutputNameInjective(prefix: string, a: Month, b: Month, c: Month, d: Month)
    requires Valid(a) && Valid(b) && Valid(c) && Valid(d)
    requires a.year < 10000 && b.year < 10000 && c.year < 10000 && d.year < 10000
    ensures OutputName(prefix, InputText(a), InputText(b)) == OutputName(prefix, InputText(c), InputText(d))
            <==> a == c && b == d
  {
    if OutputName(prefix, InputText(a), InputText(b)) == OutputName(prefix, InputText(c), InputText(d)) {
      OutputNameOfMonths(prefix, a, b);
      OutputNameOfMonths(prefix, c, d);
      SplitName(prefix, PadNat(a.year, 4) + PadNat(a.month, 2), PadNat(b.year, 4) + PadNat(b.month, 2),
                        PadNat(c.year, 4) + PadNat(c.month, 2), PadNat(d.year, 4) + PadNat(d.month, 2));
      CompactInjective(a, c);
      CompactInjective(b, d);
    }
  }

  /** The name follows the typed text, not the month: "2013-1", which
      `strptime` also reads as January 2013, names a different file than
      "2013-01". */
  lemma UnpaddedMonthNamesDiffer(prefix: string, last: string)
    ensures OutputName(prefix, "2013-1", last) != OutputName(prefix, "2013-01", last)
  {
    assert "2013-1" == "2013-" + "1" && "2013-01" == "2013-" + "01";
    assert "2013-" == "2013" + "-";
    RemoveCharAppend("2013", "-", '-');
    assert RemoveChar("-", '-') == "" by {
      assert "-"[1..] == "";
    }
    RemoveCharAppend("2013-", "1", '-');
    RemoveCharAppend("2013-", "01", '-');
    assert |RemoveChar("2013-1", '-')| == 5 && |RemoveChar("2013-01", '-')| == 6;
  }

  /** The events, results and errors files of one run are three different files. */
  lemma OutputNamesDiffer(first: string, last: string)
    ensures OutputName(EventsPrefix, first, last) != OutputName(ResultsPrefix, first, last)
    ensures OutputName(EventsPrefix, first, last) != OutputName(ErrorsPrefix, first, last)
    ensures OutputName(ResultsPrefix, first, last) != OutputName(ErrorsPrefix, first, last)
  {
    assert OutputName(EventsPrefix, first, last)[1] == 'v';
    assert OutputName(ErrorsPrefix, first, last)[1] == 'r';
    assert OutputName(ResultsPrefix, first, last)[0] == 'r';
    assert OutputName(ErrorsPrefix, first, last)[0] == 'e';
  }
}

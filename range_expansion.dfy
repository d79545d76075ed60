/**
 * Reading a summary back. A summary is cut at its commas, each piece is
 * trimmed, and a piece "a" or "a-b" stands for the integers from a to b. Read
 * this way, the summary `summarizeCollection` writes gives back exactly the
 * set of values of its input collection.
 */
module RangeExpansion {
  import opened Wrappers
  import opened JavaLang
  import opened Sorting
  import opened NumberRangeSummarizer

  /** The integers from `lo` to `hi`, both included. */
  datatype Interval = Interval(lo: int, hi: int)

  function Expand(iv: Interval): set<int>
    decreases iv.hi - iv.lo
  {
    if iv.hi < iv.lo then {} else {iv.lo} + Expand(Interval(iv.lo + 1, iv.hi))
  }

  lemma {:induction false} ExpandMembers(iv: Interval, x: int)
    ensures x in Expand(iv) <==> iv.lo <= x <= iv.hi
    decreases iv.hi - iv.lo
  {
    if iv.lo <= iv.hi {
      ExpandMembers(Interval(iv.lo + 1, iv.hi), x);
    }
  }

  /** The index of the first '-' at or after `i`, or `|s|` when there is none. */
  function DashFrom(s: string, i: nat): (j: nat)
    requires i <= |s|
    ensures i <= j <= |s|
    decreases |s| - i
  {
    if i == |s| || s[i] == '-' then i else DashFrom(s, i + 1)
  }

  /** `DashFrom` finds the first dash: none from `i` up to `j`, and one at `j`
      unless `j` is the end. */
  lemma {:induction false} DashFromFirst(s: string, i: nat, j: nat)
    requires i <= j <= |s|
    requires forall m :: i <= m < j ==> s[m] != '-'
    requires j == |s| || s[j] == '-'
    ensures DashFrom(s, i) == j
    decreases j - i
  {
    if i < j {
      DashFromFirst(s, i + 1, j);
    }
  }

  /** One segment: a number, or two numbers around the first '-' that is not
      a leading minus sign. */
  function ParseSegment(t: string): Option<Interval>
  {
    if t == [] then None
    else
      var j := DashFrom(t, 1);
      if j == |t| then
        match ParseInt(t)
        case Some(v) => Some(Interval(v, v))
        case None => None
      else
        match (ParseInt(t[..j]), ParseInt(t[j + 1..]))
        case (Some(a), Some(b)) => Some(Interval(a, b))
        case _ => None
  }

  /** The values the trimmed pieces stand for, or `None` if one is not a segment. */
  function DecodePieces(ps: seq<string>): Option<set<int>>
    decreases |ps|
  {
    if ps == [] then Some({})
    else
      match (ParseSegment(Trim(ps[0])), DecodePieces(ps[1..]))
      case (Some(iv), Some(rest)) => Some(Expand(iv) + rest)
      case _ => None
  }

  /** The set of values a summary stands for; the empty summary stands for none. */
  function Decode(summary: string): Option<set<int>>
  {
    if summary == [] then Some({}) else DecodePieces(Split(summary, ','))
  }

  // ---------------------------------------------------------------------
  // One segment

  /** The digits after the sign of `Integer.toString(a)` hold no dash. */
  lemma NoDashAfterSign(a: Int32, t: string, m: nat)
    requires IntToString(a) <= t
    requires 1 <= m < |IntToString(a)|
    ensures t[m] != '-'
  {
    var s := IntToString(a);
    IntToStringShape(a);
    assert t[m] == s[m] == s[1..][m - 1];
  }

  /** `formatRange` is read back as the interval from the first to the last
      element of the run, for every pair of `int` values. */
  lemma SegmentRoundTrip(a: Int32, b: Int32)
    ensures ParseSegment(IntToString(a)) == Some(Interval(a, a))
    ensures ParseSegment(IntToString(a) + "-" + IntToString(b)) == Some(Interval(a, b))
  {
    var sa := IntToString(a);
    var sb := IntToString(b);
    IntToStringShape(a);
    ParseIntToString(a);
    ParseIntToString(b);
    forall m | 1 <= m < |sa| ensures sa[m] != '-' {
      NoDashAfterSign(a, sa, m);
    }
    DashFromFirst(sa, 1, |sa|);
    var t := sa + "-" + sb;
    forall m | 1 <= m < |sa| ensures t[m] != '-' {
      NoDashAfterSign(a, t, m);
    }
    DashFromFirst(t, 1, |sa|);
    assert t[..|sa|] == sa && t[|sa| + 1..] == sb;
  }

  lemma FormatRangeRoundTrip(numbers: seq<Int32>, start: nat, end: nat)
    requires start <= end < |numbers|
    ensures ParseSegment(FormatRange(numbers, start, end)) == Some(Interval(numbers[start], numbers[end]))
  {
    SegmentRoundTrip(numbers[start], numbers[end]);
  }

  /** A segment is nonempty, holds no comma and neither starts nor ends with a
      blank, so `trim` keeps it whole and `split` does not cut it. */
  lemma FormatRangeShape(numbers: seq<Int32>, start: nat, end: nat)
    requires start <= end < |numbers|
    ensures var s := FormatRange(numbers, start, end);
            s != [] && ',' !in s && !IsTrimmable(s[0]) && !IsTrimmable(s[|s| - 1])
  {
    var a := IntToString(numbers[start]);
    var b := IntToString(numbers[end]);
    IntToStringShape(numbers[start]);
    IntToStringShape(numbers[end]);
    if start < end {
      var s := a + "-" + b;
      assert s[0] == a[0] && s[|s| - 1] == b[|b| - 1];
      assert ',' !in s by {
        forall m | 0 <= m < |s| ensures s[m] != ',' {
          if m < |a| { assert s[m] == a[m]; }
          else if m > |a| { assert s[m] == b[m - |a| - 1]; }
        }
      }
    }
  }

  // ---------------------------------------------------------------------
  // Joining with ", " is joining with "," after a space before every
  // segment but the first

  function Padded(ps: seq<string>): (r: seq<string>)
    ensures |r| == |ps|
    decreases |ps|
  {
    if ps == [] then [] else [" " + ps[0]] + Padded(ps[1..])
  }

  lemma {:induction false} PaddedAt(ps: seq<string>, k: nat)
    requires k < |ps|
    ensures Padded(ps)[k] == " " + ps[k]
    decreases |ps|
  {
    if ps != [] {
      if k > 0 {
        PaddedAt(ps[1..], k - 1);
      }
    }
  }

  lemma JoinPrefixHead(prefix: string, y: string, rest: seq<string>, sep: string)
    ensures Join([prefix + y] + rest, sep) == prefix + Join([y] + rest, sep)
  {
    if rest != [] {
      JoinCons(prefix + y, rest, sep);
      JoinCons(y, rest, sep);
    }
  }

  lemma {:induction false} JoinSpaced(x: string, rest: seq<string>)
    ensures Join([x] + rest, ", ") == Join([x] + Padded(rest), ",")
    decreases |rest|
  {
    if rest != [] {
      var later := Padded(rest[1..]);
      JoinSpaced(rest[0], rest[1..]);
      JoinCons(x, rest, ", ");
      assert rest == [rest[0]] + rest[1..];
      assert Padded(rest) == [" " + rest[0]] + later;
      JoinCons(x, Padded(rest), ",");
      JoinPrefixHead(" ", rest[0], later, ",");
      assert Join([x] + Padded(rest), ",") == x + "," + (" " + Join([rest[0]] + later, ","));
    }
  }

  // ---------------------------------------------------------------------
  // The pieces of a summary

  /** The values the runs `rs` span, as intervals from first to last element. */
  function Covered(numbers: seq<Int32>, rs: seq<Run>): set<int>
    requires InBounds(numbers, rs)
    decreases |rs|
  {
    if rs == [] then {}
    else Expand(Interval(numbers[rs[0].first], numbers[rs[0].last])) + Covered(numbers, rs[1..])
  }

  /** Pieces that trim to the segments of `rs` decode to what `rs` covers. */
  lemma {:induction false} DecodeSegments(numbers: seq<Int32>, rs: seq<Run>, ps: seq<string>)
    requires InBounds(numbers, rs) && |ps| == |rs|
    requires forall k :: 0 <= k < |rs| ==> Trim(ps[k]) == Segments(numbers, rs)[k]
    ensures DecodePieces(ps) == Some(Covered(numbers, rs))
    decreases |rs|
  {
    if rs != [] {
      var r := rs[0];
      SegmentsOfRuns(numbers, rs, 0);
      FormatRangeRoundTrip(numbers, r.first, r.last);
      forall k | 0 <= k < |rs| - 1 ensures Trim(ps[1..][k]) == Segments(numbers, rs[1..])[k] {
        assert ps[1..][k] == ps[k + 1];
        assert Segments(numbers, rs)[k + 1] == Segments(numbers, rs[1..])[k];
      }
      DecodeSegments(numbers, rs[1..], ps[1..]);
    }
  }

  /** A summary splits at its commas into its first segment and the other
      segments, each behind a space. */
  lemma SplitSummary(numbers: seq<Int32>, rs: seq<Run>)
    requires InBounds(numbers, rs) && rs != []
    ensures var segs := Segments(numbers, rs);
            Split(Join(segs, ", "), ',') == [segs[0]] + Padded(segs[1..])
  {
    var segs := Segments(numbers, rs);
    SegmentsOfRuns(numbers, rs, 0);
    assert segs == [segs[0]] + segs[1..];
    JoinSpaced(segs[0], segs[1..]);
    var parts := [segs[0]] + Padded(segs[1..]);
    forall k | 0 <= k < |parts| ensures ',' !in parts[k] {
      SegmentsOfRuns(numbers, rs, k);
      FormatRangeShape(numbers, rs[k].first, rs[k].last);
      if k > 0 {
        PaddedAt(segs[1..], k - 1);
        assert parts[k] == " " + segs[k];
      }
    }
    SplitJoin(parts, ',');
  }

  /** A summary decodes to what its runs cover. */
  lemma DecodeSummary(numbers: seq<Int32>, rs: seq<Run>)
    requires InBounds(numbers, rs) && rs != []
    ensures Decode(Join(Segments(numbers, rs), ", ")) == Some(Covered(numbers, rs))
  {
    var segs := Segments(numbers, rs);
    var parts := [segs[0]] + Padded(segs[1..]);
    assert Join(segs, ", ") != [] by {
      SegmentsOfRuns(numbers, rs, 0);
      FormatRangeShape(numbers, rs[0].first, rs[0].last);
      assert segs == [segs[0]] + segs[1..];
      JoinSpaced(segs[0], segs[1..]);
      JoinHead([segs[0]] + Padded(segs[1..]), ",");
    }
    assert Split(Join(segs, ", "), ',') == parts by {
      SplitSummary(numbers, rs);
    }
    forall k | 0 <= k < |rs| ensures Trim(parts[k]) == segs[k] {
      TrimSegment(numbers, rs, k);
    }
    DecodeSegments(numbers, rs, parts);
  }

  /** Trimming the `k`-th piece of a summary leaves the `k`-th segment. */
  lemma TrimSegment(numbers: seq<Int32>, rs: seq<Run>, k: nat)
    requires InBounds(numbers, rs) && k < |rs|
    ensures var segs := Segments(numbers, rs);
            Trim(([segs[0]] + Padded(segs[1..]))[k]) == segs[k]
  {
    var segs := Segments(numbers, rs);
    var parts := [segs[0]] + Padded(segs[1..]);
    SegmentsOfRuns(numbers, rs, k);
    FormatRangeShape(numbers, rs[k].first, rs[k].last);
    if k == 0 {
      TrimTight(segs[0], "");
      assert "" + segs[0] == segs[0];
    } else {
      PaddedAt(segs[1..], k - 1);
      assert parts[k] == " " + segs[k];
      TrimTight(segs[k], " ");
    }
  }

  // ---------------------------------------------------------------------
  // The runs of a sorted list cover exactly its values

  /** The values of `numbers` from index `start` on. */
  function ValuesFrom(numbers: seq<Int32>, start: nat): set<int>
  {
    set k | start <= k < |numbers| :: numbers[k] as int
  }

  /** In a run of a sorted list, the `k`-th element is the first plus `k`. */
  lemma {:induction false} RunStepsByOne(numbers: seq<Int32>, r: Run, k: nat)
    requires Sorted(numbers) && IsMaximalRun(numbers, r)
    requires r.first <= k <= r.last
    ensures numbers[k] == numbers[r.first] + (k - r.first)
    decreases k - r.first
  {
    if k > r.first {
      RunStepsByOne(numbers, r, k - 1);
      assert Continues(numbers, k - 1);
      ContinuesInOrder(numbers, k - 1);
    }
  }

  /** A run of a sorted list holds exactly the integers from its first to its
      last element. */
  lemma RunIsInterval(numbers: seq<Int32>, r: Run)
    requires Sorted(numbers) && IsMaximalRun(numbers, r)
    ensures Expand(Interval(numbers[r.first], numbers[r.last]))
         == set k | r.first <= k <= r.last :: numbers[k] as int
  {
    var iv := Interval(numbers[r.first], numbers[r.last]);
    var values := set k | r.first <= k <= r.last :: numbers[k] as int;
    RunStepsByOne(numbers, r, r.last);
    forall x: int ensures x in Expand(iv) <==> x in values {
      ExpandMembers(iv, x);
      if iv.lo <= x <= iv.hi {
        var k := r.first + (x - iv.lo);
        RunStepsByOne(numbers, r, k);
      }
      if x in values {
        var k :| r.first <= k <= r.last && numbers[k] as int == x;
        RunStepsByOne(numbers, r, k);
      }
    }
  }

  /** The runs of any tiling of a sorted list cover exactly its values. */
  lemma {:induction false} TilingCovered(numbers: seq<Int32>, start: nat, rs: seq<Run>)
    requires Sorted(numbers) && Tiling(numbers, start, rs)
    ensures InBounds(numbers, rs)
    ensures Covered(numbers, rs) == ValuesFrom(numbers, start)
    decreases |rs|
  {
    TilingFlatten(numbers, start, rs);
    if rs == [] {
      assert start == |numbers|;
    } else {
      var r := rs[0];
      TilingCovered(numbers, r.last + 1, rs[1..]);
      RunIsInterval(numbers, r);
      var runValues := set k | r.first <= k <= r.last :: numbers[k] as int;
      assert ValuesFrom(numbers, start) == runValues + ValuesFrom(numbers, r.last + 1) by {
        forall x | x in ValuesFrom(numbers, start)
          ensures x in runValues + ValuesFrom(numbers, r.last + 1)
        {
          var k :| start <= k < |numbers| && numbers[k] as int == x;
          if k <= r.last {
            assert x in runValues;
          } else {
            assert x in ValuesFrom(numbers, r.last + 1);
          }
        }
        forall x | x in ValuesFrom(numbers, r.last + 1) ensures x in ValuesFrom(numbers, start) {
          var k :| r.last + 1 <= k < |numbers| && numbers[k] as int == x;
        }
      }
    }
  }

  // ---------------------------------------------------------------------
  // The round trip

  /** Sorting keeps the values. */
  lemma SortValues(xs: seq<Int32>)
    ensures ValuesFrom(Sort(xs), 0) == set x: int | x in xs
  {
    var sorted := Sort(xs);
    forall x: int ensures x in ValuesFrom(sorted, 0) <==> x in xs {
      if x in xs {
        var i :| 0 <= i < |xs| && xs[i] == x;
        assert xs[i] in multiset(sorted);
        var k :| 0 <= k < |sorted| && sorted[k] == xs[i];
      }
      if x in ValuesFrom(sorted, 0) {
        var k :| 0 <= k < |sorted| && sorted[k] as int == x;
        assert sorted[k] in multiset(xs);
      }
    }
  }

  /** Reading back the summary of any collection gives exactly the set of its
      values: every value appears in some segment and every integer a
      segment spans is a value. */
  lemma SummaryRoundTrip(xs: seq<Int32>)
    ensures Decode(Summary(Some(xs))) == Some(set x: int | x in xs)
  {
    if xs == [] {
      assert (set x: int | x in xs) == {};
    } else {
      var sorted := Sort(xs);
      assert |sorted| > 0 by { assert |multiset(sorted)| == |multiset(xs)|; }
      var rs := Runs(sorted, 0);
      assert rs != [] by { RunsStep(sorted, 0, EndOfRange(sorted, 0)); }
      assert Summary(Some(xs)) == Join(Segments(sorted, rs), ", ");
      DecodeSummary(sorted, rs);
      assert Covered(sorted, rs) == ValuesFrom(sorted, 0) by {
        RunsTile(sorted, 0);
        TilingCovered(sorted, 0, rs);
      }
      SortValues(xs);
    }
  }

  /** `collect` followed by `summarizeCollection` loses nothing: the summary
      reads back as exactly the values the fields of the input denote. */
  lemma CollectThenSummarize(s: string)
    requires Collect(Some(s)).Ok?
    ensures var d := Decode(Summary(Some(Collect(Some(s)).value)));
            d.Some? && (forall x :: x in d.value ==> INT_MIN <= x <= INT_MAX)
            && (forall v: Int32 :: v as int in d.value <==> Denotes(Split(s, ','), v))
  {
    var xs := Collect(Some(s)).value;
    SummaryRoundTrip(xs);
    forall v: Int32 ensures v in xs <==> Denotes(Split(s, ','), v) {
      CollectContents(s, v);
    }
  }
}

/**
 * `NumberRangeSummarizerImpl`: `collect` parses a comma-delimited string into
 * a `TreeSet<Integer>`, and `summarizeCollection` sorts a collection of
 * integers, cuts it into maximal runs of consecutive values and renders them
 * as "a" or "first-last" joined by ", ".
 */
module NumberRangeSummarizer {
  import opened Wrappers
  import opened JavaLang
  import opened Sorting

  // =====================================================================
  // collect

  /** `parseInteger`: `Integer.parseInt`, whose `NumberFormatException` is
      rethrown as `IllegalArgumentException`. */
  function ParseInteger(token: string): (r: Result<Int32>)
    ensures r.Ok? <==> ParseInt(token).Some?
    ensures r.Ok? ==> ParseInt(token) == Some(r.value)
  {
    match ParseInt(token)
    case Some(v) => Ok(v)
    case None => Err(IllegalArgument)
  }

  /** What one comma-separated piece is to `collect`, once trimmed. */
  datatype Piece = Blank | Number(value: Int32) | Malformed

  /** `map(String::trim)`, the `filter(s -> !s.isEmpty())` and `map(this::parseInteger)`
      applied to one piece. */
  function Classify(piece: string): (r: Piece)
    ensures r == Blank <==> IsBlank(piece)
    ensures r == Malformed <==> !IsBlank(piece) && ParseInt(Trim(piece)).None?
    ensures r.Number? ==> ParseInt(Trim(piece)) == Some(r.value)
  {
    TrimEmpty(piece);
    var token := Trim(piece);
    if token == [] then Blank
    else match ParseInteger(token)
      case Ok(v) => Number(v)
      case Err(_) => Malformed
  }

  /** `map(String::trim)` and `map(this::parseInteger)` over the pieces of the input, in order. */
  function ClassifyAll(pieces: seq<string>): (ps: seq<Piece>)
    ensures |ps| == |pieces|
    ensures forall i :: 0 <= i < |pieces| ==> ps[i] == Classify(pieces[i])
    decreases |pieces|
  {
    if pieces == [] then [] else [Classify(pieces[0])] + ClassifyAll(pieces[1..])
  }

  lemma ClassifyAllAppend(p: seq<string>, q: seq<string>)
    ensures ClassifyAll(p + q) == ClassifyAll(p) + ClassifyAll(q)
  {
    assert |ClassifyAll(p + q)| == |ClassifyAll(p) + ClassifyAll(q)|;
    forall i | 0 <= i < |p + q| ensures ClassifyAll(p + q)[i] == (ClassifyAll(p) + ClassifyAll(q))[i] {
      if i >= |p| { assert (p + q)[i] == q[i - |p|]; }
    }
  }

  /** The values of the number pieces (in any order, repeats merged). */
  function Values(ps: seq<Piece>): set<Int32>
    decreases |ps|
  {
    if ps == [] then {}
    else (if ps[0].Number? then {ps[0].value} else {}) + Values(ps[1..])
  }

  lemma {:induction false} ValuesMembers(ps: seq<Piece>, v: Int32)
    ensures v in Values(ps) <==> Number(v) in ps
    decreases |ps|
  {
    if ps != [] {
      ValuesMembers(ps[1..], v);
      assert ps == [ps[0]] + ps[1..];
    }
  }

  /** The values a list holds. */
  function Elements(s: seq<Int32>): set<Int32>
  {
    set x | x in s
  }

  /** The stream pipeline's `filter` and `collect(toCollection(TreeSet::new))`:
      blank pieces are dropped, numbers are added to the `TreeSet` `acc`, and the
      first malformed piece throws. */
  function AddPieces(acc: seq<Int32>, ps: seq<Piece>): (r: Result<seq<Int32>>)
    requires StrictlyAscending(acc)
    ensures r.Ok? ==> StrictlyAscending(r.value)
    ensures r.Err? ==> r.error == IllegalArgument
    decreases |ps|
  {
    if ps == [] then Ok(acc)
    else
      match ps[0]
      case Malformed => Err(IllegalArgument)
      case Blank => AddPieces(acc, ps[1..])
      case Number(v) => AddPieces(AddToSet(acc, v), ps[1..])
  }

  /** The pipeline fails exactly when some piece is malformed. */
  lemma {:induction false} AddPiecesSucceeds(acc: seq<Int32>, ps: seq<Piece>)
    requires StrictlyAscending(acc)
    ensures AddPieces(acc, ps).Ok? <==> Malformed !in ps
    decreases |ps|
  {
    if ps != [] {
      assert ps == [ps[0]] + ps[1..];
      match ps[0]
      case Malformed =>
      case Blank => AddPiecesSucceeds(acc, ps[1..]);
      case Number(v) => AddPiecesSucceeds(AddToSet(acc, v), ps[1..]);
    }
  }

  /** On success, the set holds what it held before and the value of every number piece. */
  lemma {:induction false} AddPiecesElements(acc: seq<Int32>, ps: seq<Piece>)
    requires StrictlyAscending(acc)
    requires AddPieces(acc, ps).Ok?
    ensures Elements(AddPieces(acc, ps).value) == Elements(acc) + Values(ps)
    decreases |ps|
  {
    if ps != [] {
      match ps[0]
      case Blank => AddPiecesElements(acc, ps[1..]);
      case Number(v) =>
        var acc' := AddToSet(acc, v);
        assert Elements(acc') == Elements(acc) + {v};
        AddPiecesElements(acc', ps[1..]);
    }
  }

  /** `collect`: `null` is rejected, a blank string gives the empty set, and
      otherwise the string is split at commas and its pieces are run through
      the pipeline into a `TreeSet`. */
  function Collect(input: Option<string>): (r: Result<seq<Int32>>)
    ensures input.None? ==> r == Err(IllegalArgument)
    ensures input.Some? && IsBlank(input.value) ==> r == Ok([])
    ensures r.Ok? ==> StrictlyAscending(r.value)
    ensures r.Err? ==> r.error == IllegalArgument
  {
    match input
    case None => Err(IllegalArgument)
    case Some(s) =>
      TrimEmpty(s);
      if Trim(s) == [] then Ok([]) else AddPieces([], ClassifyAll(Split(s, ',')))
  }

  /** Every piece of a blank string is blank. */
  lemma {:induction false} SplitBlank(s: string, d: char)
    requires IsBlank(s)
    ensures forall i :: 0 <= i < |Split(s, d)| ==> IsBlank(Split(s, d)[i])
    decreases |s|
  {
    if s != [] {
      assert IsBlank(s[1..]);
      SplitBlank(s[1..], d);
      var rest := Split(s[1..], d);
      var parts := Split(s, d);
      forall i | 0 <= i < |parts| ensures IsBlank(parts[i]) {
        if s[0] == d {
          if i > 0 { assert parts[i] == rest[i - 1]; }
        } else if i == 0 {
          assert parts[0] == [s[0]] + rest[0];
        } else {
          assert parts[i] == rest[i];
        }
      }
    }
  }

  /** The pieces of a blank string are all `Blank`. */
  lemma BlankPieces(s: string)
    requires IsBlank(s)
    ensures Malformed !in ClassifyAll(Split(s, ','))
    ensures Values(ClassifyAll(Split(s, ','))) == {}
  {
    SplitBlank(s, ',');
    var pieces := Split(s, ',');
    var ps := ClassifyAll(pieces);
    forall i | 0 <= i < |ps| ensures ps[i] == Blank {
      TrimEmpty(pieces[i]);
    }
    forall v: Int32 ensures v !in Values(ps) {
      ValuesMembers(ps, v);
    }
  }

  /** Each piece trims to nothing or to a string `Integer.parseInt` accepts. */
  predicate Acceptable(pieces: seq<string>)
  {
    forall i :: 0 <= i < |pieces| ==> !Classify(pieces[i]).Malformed?
  }

  /** `collect` of a string succeeds exactly when none of its comma-separated
      pieces is malformed. */
  lemma CollectSucceeds(s: string)
    ensures Collect(Some(s)).Ok? <==> Acceptable(Split(s, ','))
  {
    var pieces := Split(s, ',');
    var ps := ClassifyAll(pieces);
    TrimEmpty(s);
    if Trim(s) == [] {
      BlankPieces(s);
    } else {
      AddPiecesSucceeds([], ps);
    }
    assert Malformed !in ps <==> forall i :: 0 <= i < |ps| ==> !ps[i].Malformed?;
  }

  /** Some piece of the input trims to a string that `Integer.parseInt` reads as `v`. */
  predicate Denotes(pieces: seq<string>, v: Int32)
  {
    exists i :: 0 <= i < |pieces| && Classify(pieces[i]) == Number(v)
  }

  /** On success, `collect` holds exactly the values of the number pieces,
      in ascending order without repetition. */
  lemma CollectContents(s: string, v: Int32)
    requires Collect(Some(s)).Ok?
    ensures v in Collect(Some(s)).value <==> Denotes(Split(s, ','), v)
  {
    var pieces := Split(s, ',');
    var ps := ClassifyAll(pieces);
    var r := Collect(Some(s));
    assert Elements(r.value) == Values(ps) by {
      TrimEmpty(s);
      if Trim(s) == [] {
        BlankPieces(s);
      } else {
        AddPiecesElements([], ps);
      }
    }
    assert v in r.value <==> v in Values(ps) by {
      assert v in r.value <==> v in Elements(r.value);
    }
    ValuesMembers(ps, v);
    assert Number(v) in ps <==> Denotes(pieces, v) by {
      if Number(v) in ps {
        var i :| 0 <= i < |ps| && ps[i] == Number(v);
      }
      if Denotes(pieces, v) {
        var i :| 0 <= i < |pieces| && Classify(pieces[i]) == Number(v);
        assert ps[i] == Number(v);
      }
    }
  }

  /** A blank piece leaves the pipeline's outcome unchanged. */
  lemma {:induction false} AddPiecesSkipsBlank(acc: seq<Int32>, p: seq<Piece>, q: seq<Piece>)
    requires StrictlyAscending(acc)
    ensures AddPieces(acc, p + [Blank] + q) == AddPieces(acc, p + q)
    decreases |p|
  {
    if p == [] {
      assert p + [Blank] + q == [Blank] + q && p + q == q;
      assert ([Blank] + q)[1..] == q;
    } else {
      assert (p + [Blank] + q)[0] == (p + q)[0] == p[0];
      assert (p + [Blank] + q)[1..] == p[1..] + [Blank] + q;
      assert (p + q)[1..] == p[1..] + q;
      match p[0]
      case Malformed =>
      case Blank => AddPiecesSkipsBlank(acc, p[1..], q);
      case Number(v) => AddPiecesSkipsBlank(AddToSet(acc, v), p[1..], q);
    }
  }

  /** An empty field between two commas is skipped rather than rejected. */
  lemma CollectSkipsEmptyField(a: string, b: string)
    ensures Collect(Some(a + ",," + b)) == Collect(Some(a + "," + b))
  {
    var s2 := a + ",," + b;
    var s1 := a + "," + b;
    assert s2 == a + [','] + ("" + [','] + b);
    assert s1 == a + [','] + b;
    assert !IsTrimmable(s2[|a|]) && !IsTrimmable(s1[|a|]);
    TrimEmpty(s2);
    TrimEmpty(s1);
    SplitAppend(a, ',', "" + [','] + b);
    SplitCons("", ',', b);
    SplitAppend(a, ',', b);
    var pa := Split(a, ',');
    var pb := Split(b, ',');
    assert Split(s2, ',') == pa + [""] + pb;
    ClassifyAllAppend(pa + [""], pb);
    ClassifyAllAppend(pa, [""]);
    ClassifyAllAppend(pa, pb);
    assert ClassifyAll([""]) == [Blank];
    AddPiecesSkipsBlank([], ClassifyAll(pa), ClassifyAll(pb));
  }

  /** The order and multiplicity of the pieces do not matter: any rearrangement
      of them is accepted or rejected alike and yields the same set. */
  lemma AddPiecesOrderFree(p: seq<Piece>, q: seq<Piece>)
    requires forall x :: x in p <==> x in q
    ensures AddPieces([], p) == AddPieces([], q)
  {
    var rp := AddPieces([], p);
    var rq := AddPieces([], q);
    AddPiecesSucceeds([], p);
    AddPiecesSucceeds([], q);
    if rp.Ok? {
      AddPiecesElements([], p);
      AddPiecesElements([], q);
      forall v: Int32 ensures v in Values(p) <==> v in Values(q) {
        ValuesMembers(p, v);
        ValuesMembers(q, v);
      }
      forall v ensures v in rp.value <==> v in rq.value {
        assert v in rp.value <==> v in Elements(rp.value);
        assert v in rq.value <==> v in Elements(rq.value);
      }
      StrictlyAscendingUnique(rp.value, rq.value);
    }
  }

  /** The decimal forms of a list of values. */
  function Texts(xs: seq<Int32>): seq<string>
  {
    seq(|xs|, i requires 0 <= i < |xs| => IntToString(xs[i]))
  }

  /** The pieces that stand for a list of values. */
  function Numbers(xs: seq<Int32>): seq<Piece>
  {
    seq(|xs|, i requires 0 <= i < |xs| => Number(xs[i]))
  }

  /** A piece holding the decimal form of `x` stands for `x`. */
  lemma ClassifyText(x: Int32)
    ensures Classify(IntToString(x)) == Number(x)
  {
    IntToStringShape(x);
    TrimTight(IntToString(x), "");
    assert "" + IntToString(x) == IntToString(x);
    ParseIntToString(x);
  }

  /** Numbers above everything in the set are appended in order. */
  lemma {:induction false} AddPiecesAscending(acc: seq<Int32>, xs: seq<Int32>)
    requires StrictlyAscending(acc) && StrictlyAscending(acc + xs)
    ensures AddPieces(acc, Numbers(xs)) == Ok(acc + xs)
    decreases |xs|
  {
    if xs != [] {
      var x := xs[0];
      assert Numbers(xs)[1..] == Numbers(xs[1..]);
      assert forall i :: 0 <= i < |acc| ==> acc[i] < x by {
        forall i | 0 <= i < |acc| ensures acc[i] < x {
          assert (acc + xs)[i] == acc[i] && (acc + xs)[|acc|] == x;
        }
      }
      AddToSetAbove(acc, x);
      assert Numbers(xs)[0] == Number(x);
      assert AddPieces(acc, Numbers(xs)) == AddPieces(acc + [x], Numbers(xs[1..]));
      assert (acc + [x]) + xs[1..] == acc + xs;
      AddPiecesAscending(acc + [x], xs[1..]);
    } else {
      assert Numbers(xs) == [] && acc + xs == acc;
    }
  }

  /** `collect` of a nonempty list of values written out in decimal and joined
      with commas runs the pipeline over exactly those values, in that order. */
  lemma CollectWritten(xs: seq<Int32>)
    requires xs != []
    ensures Collect(Some(Join(Texts(xs), ","))) == AddPieces([], Numbers(xs))
  {
    var ts := Texts(xs);
    var s := Join(ts, ",");
    forall i | 0 <= i < |ts| ensures ',' !in ts[i] {
      IntToStringShape(xs[i]);
    }
    SplitJoin(ts, ',');
    assert ClassifyAll(ts) == Numbers(xs) by {
      forall i | 0 <= i < |ts| ensures ClassifyAll(ts)[i] == Numbers(xs)[i] {
        ClassifyText(xs[i]);
      }
    }
    assert !IsBlank(s) by {
      JoinHead(ts, ",");
      IntToStringShape(xs[0]);
      assert s[0] == ts[0][0];
    }
    TrimEmpty(s);
  }

  /** `collect` reads back any strictly ascending list written out in decimal
      and joined with commas. */
  lemma CollectJoined(xs: seq<Int32>)
    requires StrictlyAscending(xs)
    ensures Collect(Some(Join(Texts(xs), ","))) == Ok(xs)
  {
    if xs != [] {
      CollectWritten(xs);
      AddPiecesAscending([], xs);
      assert [] + xs == xs;
    }
  }

  // =====================================================================
  // summarizeCollection

  /** The loop test of `findEndOfRange` at index `i`:
      `numbers.get(i + 1) == numbers.get(i) + 1`, where the `int` addition
      wraps around at `Integer.MAX_VALUE`. */
  predicate Continues(numbers: seq<Int32>, i: nat)
    requires i + 1 < |numbers|
  {
    if numbers[i] == INT_MAX then numbers[i + 1] == INT_MIN
    else numbers[i + 1] == numbers[i] + 1
  }

  /** `Continues` is the `int` comparison `numbers.get(i + 1) == numbers.get(i) + 1`. */
  lemma ContinuesIsIntAddition(numbers: seq<Int32>, i: nat)
    requires i + 1 < |numbers|
    ensures Continues(numbers, i) <==> numbers[i + 1] == AddInt(numbers[i], 1)
  {
  }

  /** On ascending input the wrap-around never matters: a run continues
      exactly when the next element is the successor. */
  lemma ContinuesInOrder(numbers: seq<Int32>, i: nat)
    requires i + 1 < |numbers| && numbers[i] <= numbers[i + 1]
    ensures Continues(numbers, i) <==> numbers[i + 1] == numbers[i] as int + 1
  {
  }

  /** The inclusive index bounds of one run. */
  datatype Run = Run(first: nat, last: nat)

  /** `r` is a run of `numbers`: in range, each element followed by its
      successor, and not extendable to the right. */
  predicate IsMaximalRun(numbers: seq<Int32>, r: Run)
  {
    r.first <= r.last < |numbers|
    && (forall i :: r.first <= i < r.last ==> Continues(numbers, i))
    && (r.last == |numbers| - 1 || !Continues(numbers, r.last))
  }

  /** The index `findEndOfRange` stops at: the furthest index reached from
      `start` by stepping to adjacent values. */
  function EndOfRange(numbers: seq<Int32>, start: nat): (e: nat)
    requires start < |numbers|
    ensures start <= e < |numbers|
    decreases |numbers| - start
  {
    if start < |numbers| - 1 && Continues(numbers, start)
    then EndOfRange(numbers, start + 1)
    else start
  }

  /** From `start` to the index `findEndOfRange` returns is a maximal run. */
  lemma {:induction false} EndOfRangeMaximal(numbers: seq<Int32>, start: nat)
    requires start < |numbers|
    ensures IsMaximalRun(numbers, Run(start, EndOfRange(numbers, start)))
    decreases |numbers| - start
  {
    if start < |numbers| - 1 && Continues(numbers, start) {
      EndOfRangeMaximal(numbers, start + 1);
    }
  }

  /** It is the only maximal run that starts at `start`. */
  lemma {:induction false} EndOfRangeUnique(numbers: seq<Int32>, start: nat, e: nat)
    requires IsMaximalRun(numbers, Run(start, e))
    ensures e == EndOfRange(numbers, start)
    decreases e - start
  {
    if start < e {
      assert Continues(numbers, start);
      EndOfRangeUnique(numbers, start + 1, e);
    }
  }

  /** `rs` cuts the indices `start..|numbers|` into maximal runs that follow
      one another without gap or overlap, in order. */
  predicate Tiling(numbers: seq<Int32>, start: nat, rs: seq<Run>)
    decreases |rs|
  {
    if rs == [] then start == |numbers|
    else rs[0].first == start && IsMaximalRun(numbers, rs[0])
         && Tiling(numbers, rs[0].last + 1, rs[1..])
  }

  /** Every run lies within the list. */
  predicate InBounds(numbers: seq<Int32>, rs: seq<Run>)
    decreases |rs|
  {
    rs == [] || (rs[0].first <= rs[0].last < |numbers| && InBounds(numbers, rs[1..]))
  }

  /** The runs the scanning loop of `summarizeCollection` finds from `start` on. */
  function Runs(numbers: seq<Int32>, start: nat): (rs: seq<Run>)
    requires start <= |numbers|
    ensures InBounds(numbers, rs)
    decreases |numbers| - start
  {
    if start == |numbers| then []
    else
      var e := EndOfRange(numbers, start);
      var rest := Runs(numbers, e + 1);
      assert ([Run(start, e)] + rest)[1..] == rest;
      [Run(start, e)] + rest
  }

  /** The runs found from `start` on: the run that starts there, then the
      runs after it. */
  lemma RunsStep(numbers: seq<Int32>, start: nat, end: nat)
    requires start < |numbers| && end == EndOfRange(numbers, start)
    ensures Runs(numbers, start) == [Run(start, end)] + Runs(numbers, end + 1)
  {
  }

  /** The loop's runs tile the list from `start` on. */
  lemma {:induction false} RunsTile(numbers: seq<Int32>, start: nat)
    requires start <= |numbers|
    ensures Tiling(numbers, start, Runs(numbers, start))
    decreases |numbers| - start
  {
    if start < |numbers| {
      var e := EndOfRange(numbers, start);
      var rest := Runs(numbers, e + 1);
      EndOfRangeMaximal(numbers, start);
      RunsTile(numbers, e + 1);
      RunsStep(numbers, start, e);
      assert ([Run(start, e)] + rest)[1..] == rest;
    }
  }

  /** A tiling, run by run: the first run starts at `start`, the last ends at
      the end of the list, each run is maximal and the next one starts right
      after it. */
  lemma {:induction false} TilingAt(numbers: seq<Int32>, start: nat, rs: seq<Run>, k: nat)
    requires Tiling(numbers, start, rs)
    requires k < |rs|
    ensures IsMaximalRun(numbers, rs[k])
    ensures k == 0 ==> rs[k].first == start
    ensures k == |rs| - 1 ==> rs[k].last == |numbers| - 1
    ensures k < |rs| - 1 ==> rs[k + 1].first == rs[k].last + 1
    decreases k
  {
    if k > 0 {
      TilingAt(numbers, rs[0].last + 1, rs[1..], k - 1);
    } else if |rs| == 1 {
      assert rs[1..] == [];
    }
  }

  /** The loop's runs are the only way to cut the list into maximal runs. */
  lemma {:induction false} RunsUnique(numbers: seq<Int32>, start: nat, rs: seq<Run>)
    requires Tiling(numbers, start, rs)
    ensures rs == Runs(numbers, start)
    decreases |rs|
  {
    if rs != [] {
      EndOfRangeUnique(numbers, start, rs[0].last);
      RunsUnique(numbers, rs[0].last + 1, rs[1..]);
    }
  }

  /** The elements the runs cover, run after run. */
  function Flatten(numbers: seq<Int32>, rs: seq<Run>): seq<Int32>
    requires InBounds(numbers, rs)
    decreases |rs|
  {
    if rs == [] then [] else numbers[rs[0].first..rs[0].last + 1] + Flatten(numbers, rs[1..])
  }

  /** Any tiling partitions the list: read one after another, its runs give
      back the elements from `start` on. */
  lemma {:induction false} TilingFlatten(numbers: seq<Int32>, start: nat, rs: seq<Run>)
    requires Tiling(numbers, start, rs)
    ensures InBounds(numbers, rs)
    ensures start <= |numbers| && Flatten(numbers, rs) == numbers[start..]
    decreases |rs|
  {
    if rs != [] {
      var next := rs[0].last + 1;
      TilingFlatten(numbers, next, rs[1..]);
      assert numbers[start..] == numbers[start..next] + numbers[next..];
    }
  }

  /** The runs partition the list: read one after another they give back the list. */
  lemma RunsPartition(numbers: seq<Int32>, start: nat)
    requires start <= |numbers|
    ensures Flatten(numbers, Runs(numbers, start)) == numbers[start..]
  {
    RunsTile(numbers, start);
    TilingFlatten(numbers, start, Runs(numbers, start));
  }

  /** On strictly ascending input, neighbouring runs are separated by a gap in
      the values, so no two runs could be merged. */
  lemma RunsSeparated(numbers: seq<Int32>, start: nat, k: nat)
    requires StrictlyAscending(numbers)
    requires start <= |numbers|
    requires k + 1 < |Runs(numbers, start)|
    ensures var rs := Runs(numbers, start);
              rs[k].last < rs[k + 1].first < |numbers|
              && numbers[rs[k].last] as int + 1 < numbers[rs[k + 1].first]
  {
    var rs := Runs(numbers, start);
    RunsTile(numbers, start);
    TilingAt(numbers, start, rs, k);
    TilingAt(numbers, start, rs, k + 1);
    var i := rs[k].last;
    ContinuesInOrder(numbers, i);
  }

  /** `formatRange`: a run of one element is the element; otherwise "first-last". */
  function FormatRange(numbers: seq<Int32>, start: nat, end: nat): string
    requires start <= end < |numbers|
  {
    if start == end then IntToString(numbers[start])
    else IntToString(numbers[start]) + "-" + IntToString(numbers[end])
  }

  /** The strings the loop of `summarizeCollection` adds to `ranges`, one
      formatted run after another. */
  function Segments(numbers: seq<Int32>, rs: seq<Run>): (segs: seq<string>)
    requires InBounds(numbers, rs)
    ensures |segs| == |rs|
    decreases |rs|
  {
    if rs == [] then [] else [FormatRange(numbers, rs[0].first, rs[0].last)] + Segments(numbers, rs[1..])
  }

  lemma SegmentsCons(numbers: seq<Int32>, r: Run, rest: seq<Run>)
    requires r.first <= r.last < |numbers| && InBounds(numbers, rest)
    ensures InBounds(numbers, [r] + rest)
    ensures Segments(numbers, [r] + rest) == [FormatRange(numbers, r.first, r.last)] + Segments(numbers, rest)
  {
    assert ([r] + rest)[1..] == rest;
  }

  /** There is one segment per run, and the `k`-th segment formats the `k`-th run. */
  lemma {:induction false} SegmentsOfRuns(numbers: seq<Int32>, rs: seq<Run>, k: nat)
    requires InBounds(numbers, rs)
    ensures |Segments(numbers, rs)| == |rs|
    ensures k < |rs| ==> rs[k].first <= rs[k].last < |numbers|
                         && Segments(numbers, rs)[k] == FormatRange(numbers, rs[k].first, rs[k].last)
    decreases |rs|
  {
    if rs != [] {
      SegmentsOfRuns(numbers, rs[1..], if k == 0 then 0 else k - 1);
    }
  }

  /** The summary of an already sorted list. */
  function Render(sorted: seq<Int32>): string
  {
    Join(Segments(sorted, Runs(sorted, 0)), ", ")
  }

  /** What `summarizeCollection` returns: `""` for `null` or an empty
      collection, and otherwise the summary of the sorted elements. */
  function Summary(input: Option<seq<Int32>>): string
  {
    match input
    case None => ""
    case Some(xs) => if |xs| == 0 then "" else Render(Sort(xs))
  }

  /** The summary is empty exactly for `null` and for an empty collection. */
  lemma SummaryEmpty(input: Option<seq<Int32>>)
    ensures Summary(input) == "" <==> input.None? || input.value == []
  {
    if input.Some? && input.value != [] {
      var sorted := Sort(input.value);
      assert |sorted| > 0 by { assert |multiset(sorted)| == |multiset(input.value)|; }
      var segs := Segments(sorted, Runs(sorted, 0));
      IntToStringShape(sorted[0]);
      assert segs[0] != [];
    }
  }

  /** `findEndOfRange`. */
  method FindEndOfRange(numbers: seq<Int32>, start: nat) returns (end: nat)
    requires start < |numbers|
    ensures end == EndOfRange(numbers, start)
  {
    var current := start;
    while current < |numbers| - 1 && numbers[current + 1] == AddInt(numbers[current], 1)
      invariant start <= current < |numbers|
      invariant EndOfRange(numbers, current) == EndOfRange(numbers, start)
      decreases |numbers| - current
    {
      ContinuesIsIntAddition(numbers, current);
      current := current + 1;
    }
    if current < |numbers| - 1 {
      ContinuesIsIntAddition(numbers, current);
    }
    end := current;
  }

  /** The scanning loop's invariant survives one turn: `ranges` gains the
      segment of the run at `start`, and the scan resumes right after that run. */
  lemma ScanStep(numbers: seq<Int32>, start: nat, end: nat, next: nat,
                 ranges: seq<string>, ranges': seq<string>, all: seq<string>)
    requires start < |numbers| && end == EndOfRange(numbers, start) && next == end + 1
    requires ranges + Segments(numbers, Runs(numbers, start)) == all
    requires ranges' == ranges + [FormatRange(numbers, start, end)]
    ensures ranges' + Segments(numbers, Runs(numbers, next)) == all
  {
    var later := Runs(numbers, next);
    RunsStep(numbers, start, end);
    SegmentsCons(numbers, Run(start, end), later);
    AppendStep(ranges, FormatRange(numbers, start, end), Segments(numbers, later), all);
  }

  /** Moving one element from the front of what is left to the end of what is done. */
  lemma AppendStep<T>(done: seq<T>, x: T, later: seq<T>, all: seq<T>)
    requires done + ([x] + later) == all
    ensures (done + [x]) + later == all
  {
    assert done + ([x] + later) == (done + [x]) + later;
  }

  /** `summarizeCollection`: sort, then scan run by run, appending each
      formatted run to `ranges`, and join them with ", ". */
  method SummarizeCollection(input: Option<seq<Int32>>) returns (summary: string)
    ensures summary == Summary(input)
  {
    if input.None? || |input.value| == 0 {
      return "";
    }
    var sortedNumbers := Sort(input.value);
    ghost var all := Segments(sortedNumbers, Runs(sortedNumbers, 0));
    var ranges: seq<string> := [];
    var start: nat := 0;
    while start < |sortedNumbers|
      invariant start <= |sortedNumbers|
      invariant ranges + Segments(sortedNumbers, Runs(sortedNumbers, start)) == all
      decreases |sortedNumbers| - start
    {
      var end := FindEndOfRange(sortedNumbers, start);
      ghost var before := ranges;
      ghost var from := start;
      ranges := ranges + [FormatRange(sortedNumbers, start, end)];
      start := end + 1;
      ScanStep(sortedNumbers, from, end, start, before, ranges, all);
    }
    assert ranges == all by {
      assert ranges + [] == ranges;
    }
    summary := Join(ranges, ", ");
  }
}

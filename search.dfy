/**
 * The packing search of `parse`, stated on values: the candidate orderings
 * (rotations, the nine base sorts, the random reorderings), the packer's
 * effect on the placements, the fail-fast scoring of one attempt, and the
 * choice of the lowest-scoring result.
 */
module Search {
  import opened Wrappers
  import opened Images
  import opened BlockSort
  import Sorting

  /** The placement of every record, by record identity. */
  type Fits = map<ImageInfo, Option<Pos>>

  /**
   * The packer's decision for each position of the list it is given: `Some`
   * sets that record's placement, `None` leaves whatever placement the
   * record already carries.  A list shorter than the input leaves the rest.
   */
  type Packer = seq<ImageInfo> -> seq<Option<Pos>>

  /** The number of random reorderings tried. */
  const RandomRounds: nat := 20

  /** A clone of `block` carrying this attempt's placement. */
  datatype Placed = Placed(block: ImageInfo, fit: Pos)

  /** The `Result` record: the ordering's label, the placed clones in order, and the score. */
  datatype Result = Result(key: string, blocks: seq<Placed>, fit: int)

  function FitOf(fits: Fits, b: ImageInfo): Option<Pos>
  {
    if b in fits then fits[b] else None
  }

  function Decision(packer: Packer, bs: seq<ImageInfo>, i: nat): Option<Pos>
  {
    var d := packer(bs);
    if i < |d| then d[i] else None
  }

  /** The placement of `b` once the packer has handled the first `n` positions of `bs`. */
  function Decided(packer: Packer, bs: seq<ImageInfo>, b: ImageInfo, n: nat, prior: Option<Pos>): Option<Pos>
    requires n <= |bs|
  {
    if n == 0 then prior
    else if bs[n - 1] == b && Decision(packer, bs, n - 1).Some? then Decision(packer, bs, n - 1)
    else Decided(packer, bs, b, n - 1, prior)
  }

  /** `packer.fit(bs)`: every record keeps its placement unless the packer sets a new one for it. */
  function Pack(packer: Packer, bs: seq<ImageInfo>, fits: Fits): (r: Fits)
    ensures r.Keys == fits.Keys
  {
    map b | b in fits :: Decided(packer, bs, b, |bs|, fits[b])
  }

  lemma {:induction false} DecidedOutside(packer: Packer, bs: seq<ImageInfo>, b: ImageInfo, n: nat, prior: Option<Pos>)
    requires n <= |bs| && b !in bs[..n]
    ensures Decided(packer, bs, b, n, prior) == prior
  {
    if n > 0 {
      assert bs[n - 1] in bs[..n];
      assert forall x :: x in bs[..n - 1] ==> x in bs[..n];
      DecidedOutside(packer, bs, b, n - 1, prior);
    }
  }

  /**
   * After the packer has run, a record keeps its earlier placement or holds
   * one the packer chose at one of its positions; the packer never clears a
   * placement.
   */
  lemma {:induction false} DecidedSpec(packer: Packer, bs: seq<ImageInfo>, b: ImageInfo, n: nat, prior: Option<Pos>)
    requires n <= |bs|
    ensures var r := Decided(packer, bs, b, n, prior);
      r == prior || exists i :: 0 <= i < n && bs[i] == b && r == Decision(packer, bs, i) && r.Some?
    ensures prior.Some? ==> Decided(packer, bs, b, n, prior).Some?
  {
    if n > 0 {
      DecidedSpec(packer, bs, b, n - 1, prior);
    }
  }

  /** Every record of `bs` carries a placement. */
  predicate AllPlaced(bs: seq<ImageInfo>, fits: Fits)
  {
    forall i :: 0 <= i < |bs| ==> FitOf(fits, bs[i]).Some?
  }

  function Clones(bs: seq<ImageInfo>, fits: Fits): (r: seq<Placed>)
    requires AllPlaced(bs, fits)
    ensures |r| == |bs|
    ensures forall i :: 0 <= i < |bs| ==> r[i] == Placed(bs[i], FitOf(fits, bs[i]).value)
  {
    seq(|bs|, i requires 0 <= i < |bs| => Placed(bs[i], FitOf(fits, bs[i]).value))
  }

  /**
   * The outcome of one attempt (`doPacking`): a result holding every record
   * and scored by the sum of their areas when all of them are placed, and
   * nothing at all when any one of them is not.
   */
  function Outcome(key: string, bs: seq<ImageInfo>, fits: Fits): seq<Result>
  {
    if AllPlaced(bs, fits) then [Result(key, Clones(bs, fits), SumArea(bs))] else []
  }

  /** The outcome of an attempt depends only on the placements of the records in it. */
  lemma OutcomeLocal(key: string, bs: seq<ImageInfo>, f: Fits, g: Fits)
    requires forall b :: b in bs ==> FitOf(f, b) == FitOf(g, b)
    ensures Outcome(key, bs, f) == Outcome(key, bs, g)
  {
    assert forall i :: 0 <= i < |bs| ==> bs[i] in bs;
    if AllPlaced(bs, f) {
      assert Clones(bs, f) == Clones(bs, g);
    }
  }

  /**
   * `idxHandler(k, s)`: position `i` holds the record `k` places further on,
   * wrapping round to the front.
   */
  function RotationOf(s: seq<ImageInfo>, k: nat): (r: seq<ImageInfo>)
    ensures |r| == |s|
  {
    if s == [] then []
    else
      var m := k % |s|;
      seq(|s|, i requires 0 <= i < |s| => if i + m < |s| then s[i + m] else s[i + m - |s|])
  }

  lemma RotationSplit(s: seq<ImageInfo>, k: nat)
    requires k <= |s|
    ensures RotationOf(s, k) == s[k..] + s[..k]
  {
    if s != [] {
      var m := k % |s|;
      if k == |s| {
        assert m == 0;
        assert s[k..] + s[..k] == s;
      } else {
        assert m == k;
      }
    }
  }

  /** A rotation is a rearrangement of the list, and rotating by 0 changes nothing. */
  lemma RotationPermutation(s: seq<ImageInfo>, k: nat)
    ensures multiset(RotationOf(s, k)) == multiset(s)
    ensures RotationOf(s, 0) == s
  {
    RotationSplit(s, 0);
    assert s[0..] == s;
    if s != [] {
      var m := k % |s|;
      assert m % |s| == m;
      assert RotationOf(s, k) == RotationOf(s, m);
      RotationSplit(s, m);
      calc {
        multiset(RotationOf(s, k));
        multiset(s[m..]) + multiset(s[..m]);
        { assert s == s[..m] + s[m..]; }
        multiset(s);
      }
    }
  }

  /**
   * One random reordering, driven by the random draws: each draw picks,
   * modulo the number left, the next record among those not yet placed.
   * Every rearrangement of the list arises from some draws.
   */
  function ShuffleOf(s: seq<ImageInfo>, draws: seq<nat>): (r: seq<ImageInfo>)
    ensures |r| == |s|
    ensures multiset(r) == multiset(s)
    decreases |s|
  {
    if s == [] then []
    else
      var j := if draws == [] then 0 else draws[0] % |s|;
      assert s == s[..j] + [s[j]] + s[j + 1..];
      [s[j]] + ShuffleOf(s[..j] + s[j + 1..], if draws == [] then [] else draws[1..])
  }

  lemma SmallRemainder(j: nat, n: nat)
    requires j < n
    ensures j % n == j
  {
  }

  /** Every rearrangement of the list is the reordering of some draws. */
  lemma {:induction false} EveryOrderDrawn(s: seq<ImageInfo>, p: seq<ImageInfo>)
    requires multiset(p) == multiset(s)
    ensures exists draws :: ShuffleOf(s, draws) == p
    decreases |s|
  {
    if s == [] {
      assert |p| == |multiset(p)| == 0;
      assert ShuffleOf(s, []) == p;
    } else {
      var j := IndexOfFirst(s, p);
      var rest := s[..j] + s[j + 1..];
      WithoutFirst(s, p, j, rest);
      EveryOrderDrawn(rest, p[1..]);
      var d :| ShuffleOf(rest, d) == p[1..];
      DrawFirst(s, p, j, d, rest);
    }
  }

  /** A nonempty rearrangement begins with some record of the list. */
  lemma IndexOfFirst(s: seq<ImageInfo>, p: seq<ImageInfo>) returns (j: nat)
    requires multiset(p) == multiset(s) && s != []
    ensures p != [] && j < |s| && s[j] == p[0]
  {
    assert |p| == |multiset(p)| == |s|;
    assert p[0] in multiset(s);
    j :| 0 <= j < |s| && s[j] == p[0];
  }

  /** Taking the first element off `p`, and one equal to it off `s`, leaves the same records. */
  lemma WithoutFirst(s: seq<ImageInfo>, p: seq<ImageInfo>, j: nat, rest: seq<ImageInfo>)
    requires multiset(p) == multiset(s) && p != []
    requires j < |s| && s[j] == p[0] && rest == s[..j] + s[j + 1..]
    ensures multiset(p[1..]) == multiset(rest)
  {
    RemoveAt(s, j, rest);
    assert p == [p[0]] + p[1..];
    assert multiset(p) == multiset(p[1..]) + multiset{p[0]};
    Cancel(multiset(p[1..]), multiset(rest), p[0]);
  }

  /** A first draw below the length picks that record; the later draws reorder the others. */
  lemma DrawFirst(s: seq<ImageInfo>, p: seq<ImageInfo>, j: nat, d: seq<nat>, rest: seq<ImageInfo>)
    requires j < |s| && rest == s[..j] + s[j + 1..]
    requires p != [] && s[j] == p[0] && ShuffleOf(rest, d) == p[1..]
    ensures ShuffleOf(s, [j] + d) == p
  {
    var draws := [j] + d;
    SmallRemainder(j, |s|);
    assert draws[0] % |s| == j && draws[1..] == d;
    assert p == [p[0]] + p[1..];
  }

  /** One candidate ordering of the search. */
  datatype Strategy = Rotation(ki: nat) | BaseSort(key: SortKey) | Random(t: nat, draws: seq<nat>)

  function DecimalString(n: nat): string
  {
    var d := ['0', '1', '2', '3', '4', '5', '6', '7', '8', '9'][n % 10];
    if n < 10 then [d] else DecimalString(n / 10) + [d]
  }

  /** The key of an attempt: `"areaI" + ki`, the comparator's name, or `"random" + t`. */
  function Label(s: Strategy): string
  {
    match s
    case Rotation(ki) => "areaI" + DecimalString(ki)
    case BaseSort(k) => Name(k)
    case Random(t, _) => "random" + DecimalString(t)
  }

  /** The attempts of `parse` in the order it makes them. */
  function Plan(len: nat, shuffles: seq<seq<nat>>): (p: seq<Strategy>)
    ensures |p| == len + |BaseSorts| + |shuffles|
  {
    Rotations(len) + Sorts() + Shuffles(shuffles)
  }

  /** The rotations by 0 to `len - 1`. */
  function Rotations(len: nat): (p: seq<Strategy>)
    ensures |p| == len && forall i :: 0 <= i < len ==> p[i] == Rotation(i)
  {
    seq(len, i requires 0 <= i < len => Rotation(i))
  }

  /** The base sorts, in the order of `BaseSorts`. */
  function Sorts(): (p: seq<Strategy>)
    ensures |p| == |BaseSorts| && forall j :: 0 <= j < |BaseSorts| ==> p[j] == BaseSort(BaseSorts[j])
  {
    seq(|BaseSorts|, j requires 0 <= j < |BaseSorts| => BaseSort(BaseSorts[j]))
  }

  /** One random reordering per list of draws. */
  function Shuffles(shuffles: seq<seq<nat>>): (p: seq<Strategy>)
    ensures |p| == |shuffles| && forall t :: 0 <= t < |shuffles| ==> p[t] == Random(t, shuffles[t])
  {
    seq(|shuffles|, t requires 0 <= t < |shuffles| => Random(t, shuffles[t]))
  }

  /**
   * `parse` makes `len + 9 + 20` attempts: the rotations by 0 to `len - 1`,
   * then the base sorts in the order a, area, h, height, max, maxside, min,
   * w, width, then the twenty random reorderings.
   */
  lemma PlanOrder(len: nat, shuffles: seq<seq<nat>>)
    requires |shuffles| == RandomRounds
    ensures var p := Plan(len, shuffles);
      && |p| == len + 29
      && (forall i :: 0 <= i < len ==> p[i] == Rotation(i) && Label(p[i]) == "areaI" + DecimalString(i))
      && (forall j :: 0 <= j < 9 ==> p[len + j] == BaseSort(BaseSorts[j]) && Label(p[len + j]) == Name(BaseSorts[j]))
      && (forall t :: 0 <= t < 20 ==> p[len + 9 + t] == Random(t, shuffles[t]) && Label(p[len + 9 + t]) == "random" + DecimalString(t))
      && [Label(p[len]), Label(p[len + 1]), Label(p[len + 2]), Label(p[len + 3]), Label(p[len + 4]),
          Label(p[len + 5]), Label(p[len + 6]), Label(p[len + 7]), Label(p[len + 8])]
         == ["a", "area", "h", "height", "max", "maxside", "min", "w", "width"]
  {
  }

  /** The ordering an attempt hands to the packer, given the current order of the block list. */
  function Candidate(blocks: seq<ImageInfo>, s: Strategy): seq<ImageInfo>
  {
    match s
    case Rotation(ki) => RotationOf(blocks, ki)
    case BaseSort(k) => Sorting.Sort(blocks, CmpOf(k))
    case Random(_, draws) => ShuffleOf(blocks, draws)
  }

  lemma CandidatePermutation(blocks: seq<ImageInfo>, s: Strategy)
    ensures multiset(Candidate(blocks, s)) == multiset(blocks)
  {
    if s.Rotation? {
      RotationPermutation(blocks, s.ki);
    }
  }

  /**
   * The state `parse` threads through its attempts: the order of the
   * caller's block list, the placement carried by every record, and the
   * results so far.
   */
  datatype SearchState = SearchState(blocks: seq<ImageInfo>, fits: Fits, results: seq<Result>)

  /**
   * One attempt.  A rotation packs a fresh list holding the same records and
   * leaves the block list alone; a sort or a reordering rearranges the block
   * list itself, starting from the order the previous attempt left.
   */
  function Attempted(packer: Packer, st: SearchState, s: Strategy): SearchState
  {
    var order := Candidate(st.blocks, s);
    var fits := Pack(packer, order, st.fits);
    SearchState(if s.Rotation? then st.blocks else order, fits, st.results + Outcome(Label(s), order, fits))
  }

  function Run(packer: Packer, st: SearchState, plan: seq<Strategy>): SearchState
  {
    if plan == [] then st
    else Attempted(packer, Run(packer, st, plan[..|plan| - 1]), plan[|plan| - 1])
  }

  lemma {:induction false} RunAppend(packer: Packer, st: SearchState, p: seq<Strategy>, q: seq<Strategy>)
    ensures Run(packer, st, p + q) == Run(packer, Run(packer, st, p), q)
  {
    if q == [] {
      assert p + q == p;
    } else {
      var qi := q[..|q| - 1];
      assert (p + q)[..|p + q| - 1] == p + qi;
      assert (p + q)[|p + q| - 1] == q[|q| - 1];
      RunAppend(packer, st, p, qi);
    }
  }

  /**
   * The search only rearranges the block list, only appends results, and
   * scores every result it appends with the total area of the blocks.
   */
  lemma {:induction false} RunScores(packer: Packer, st: SearchState, plan: seq<Strategy>)
    ensures var fin := Run(packer, st, plan);
      && multiset(fin.blocks) == multiset(st.blocks)
      && |fin.results| >= |st.results| && fin.results[..|st.results|] == st.results
      && forall i :: |st.results| <= i < |fin.results| ==> fin.results[i].fit == SumArea(st.blocks)
  {
    if plan != [] {
      var init := plan[..|plan| - 1];
      var s := plan[|plan| - 1];
      RunScores(packer, st, init);
      var mid := Run(packer, st, init);
      var order := Candidate(mid.blocks, s);
      CandidatePermutation(mid.blocks, s);
      SumAreaPermutation(order, st.blocks);
      var fin := Run(packer, st, plan);
      assert fin.results == mid.results + Outcome(Label(s), order, Pack(packer, order, mid.fits));
    }
  }

  function ByFit(): Sorting.Comparator<Result>
  {
    (a: Result, b: Result) => a.fit - b.fit
  }

  /** `results.sort(...)` ascending by score, then `results[0]`, which is undefined when there is none. */
  function Select(results: seq<Result>): Option<Result>
  {
    var sorted := Sorting.Sort(results, ByFit());
    if sorted == [] then None else Some(sorted[0])
  }

  /**
   * When every result has the same score the stable sort keeps the order
   * of generation, so the selection is the first result, and there is a
   * selection exactly when there is a result.
   */
  lemma SelectFirst(results: seq<Result>)
    requires forall i, j :: 0 <= i < |results| && 0 <= j < |results| ==> results[i].fit == results[j].fit
    ensures Select(results) == if results == [] then None else Some(results[0])
  {
    forall a, b | a in results && b in results ensures ByFit()(a, b) == 0 {
      var i :| 0 <= i < |results| && results[i] == a;
      var j :| 0 <= j < |results| && results[j] == b;
    }
    Sorting.SortAllTies(results, ByFit());
  }

  lemma RunSplit(packer: Packer, st: SearchState, plan: seq<Strategy>, m: nat)
    requires m <= |plan|
    ensures Run(packer, st, plan) == Run(packer, Run(packer, st, plan[..m]), plan[m..])
  {
    assert plan == plan[..m] + plan[m..];
    RunAppend(packer, st, plan[..m], plan[m..]);
  }

  lemma RunSnoc(packer: Packer, st: SearchState, plan: seq<Strategy>, j: nat)
    requires j < |plan|
    ensures Run(packer, st, plan[..j + 1]) == Attempted(packer, Run(packer, st, plan[..j]), plan[j])
  {
    assert plan[..j + 1][..j] == plan[..j];
    assert plan[..j + 1][j] == plan[j];
  }

  lemma AttemptedResults(packer: Packer, st: SearchState, s: Strategy)
    ensures var fin := Attempted(packer, st, s);
      |fin.results| <= |st.results| + 1 && fin.results[..|st.results|] == st.results
      && (|fin.results| > |st.results| ==> fin.results[|st.results|].key == Label(s))
  {
  }

  /**
   * The search picks the earliest attempt, in generation order, that placed
   * every block: if attempts `0..j-1` produced nothing and attempt `j`
   * produced a result, that result is the one selected, whatever the later
   * attempts do.
   */
  lemma SelectsEarliestSuccess(packer: Packer, st: SearchState, plan: seq<Strategy>, j: nat)
    requires st.results == [] && j < |plan|
    requires Run(packer, st, plan[..j]).results == []
    requires Run(packer, st, plan[..j + 1]).results != []
    ensures Select(Run(packer, st, plan).results) == Some(Run(packer, st, plan[..j + 1]).results[0])
    ensures Select(Run(packer, st, plan).results).value.key == Label(plan[j])
  {
    FirstResultKey(packer, st, plan, j);
    PrefixResultsKept(packer, st, plan, j + 1);
    SameScores(packer, st, plan);
  }

  lemma FirstResultKey(packer: Packer, st: SearchState, plan: seq<Strategy>, j: nat)
    requires j < |plan|
    requires Run(packer, st, plan[..j]).results == []
    requires Run(packer, st, plan[..j + 1]).results != []
    ensures Run(packer, st, plan[..j + 1]).results[0].key == Label(plan[j])
  {
    RunSnoc(packer, st, plan, j);
    AttemptedResults(packer, Run(packer, st, plan[..j]), plan[j]);
  }

  lemma PrefixResultsKept(packer: Packer, st: SearchState, plan: seq<Strategy>, m: nat)
    requires m <= |plan|
    ensures var pre := Run(packer, st, plan[..m]).results;
      var all := Run(packer, st, plan).results;
      |pre| <= |all| && all[..|pre|] == pre
  {
    RunSplit(packer, st, plan, m);
    RunScores(packer, Run(packer, st, plan[..m]), plan[m..]);
  }

  lemma SameScores(packer: Packer, st: SearchState, plan: seq<Strategy>)
    requires st.results == []
    ensures var all := Run(packer, st, plan).results;
      (forall i, j :: 0 <= i < |all| && 0 <= j < |all| ==> all[i].fit == all[j].fit)
      && Select(all) == if all == [] then None else Some(all[0])
  {
    RunScores(packer, st, plan);
    SelectFirst(Run(packer, st, plan).results);
  }

  /** No result is selected exactly when no attempt placed every block. */
  lemma ExhaustedIffNoResult(packer: Packer, st: SearchState, plan: seq<Strategy>)
    requires st.results == []
    ensures Select(Run(packer, st, plan).results).None? <==> Run(packer, st, plan).results == []
  {
    RunScores(packer, st, plan);
    SelectFirst(Run(packer, st, plan).results);
  }

  /** When the identity rotation packs completely, it is the attempt chosen. */
  lemma FirstRotationWins(packer: Packer, st: SearchState, shuffles: seq<seq<nat>>)
    requires st.results == [] && |st.blocks| > 0
    requires AllPlaced(st.blocks, Pack(packer, st.blocks, st.fits))
    ensures var fits := Pack(packer, st.blocks, st.fits);
      Select(Run(packer, st, Plan(|st.blocks|, shuffles)).results)
        == Some(Result("areaI0", Clones(st.blocks, fits), SumArea(st.blocks)))
  {
    var plan := Plan(|st.blocks|, shuffles);
    var fits := Pack(packer, st.blocks, st.fits);
    var expected := Result("areaI0", Clones(st.blocks, fits), SumArea(st.blocks));
    assert plan[0] == Rotation(0);
    FirstRotationRound(packer, st, plan);
    assert plan[..0] == [];
    SelectsOnlyFirst(packer, st, plan, 0, expected);
  }

  /** The identity rotation, tried first, records a result when it packs completely. */
  lemma FirstRotationRound(packer: Packer, st: SearchState, plan: seq<Strategy>)
    requires st.results == [] && |st.blocks| > 0
    requires plan != [] && plan[0] == Rotation(0)
    requires AllPlaced(st.blocks, Pack(packer, st.blocks, st.fits))
    ensures var fits := Pack(packer, st.blocks, st.fits);
      Run(packer, st, plan[..1]).results == [Result("areaI0", Clones(st.blocks, fits), SumArea(st.blocks))]
  {
    var fits := Pack(packer, st.blocks, st.fits);
    RotationPermutation(st.blocks, 0);
    assert plan[..0] == [];
    assert Run(packer, st, plan[..0]) == st;
    RunSnoc(packer, st, plan, 0);
    assert DecimalString(0) == "0";
    assert Label(Rotation(0)) == "areaI0";
    assert Candidate(st.blocks, Rotation(0)) == st.blocks;
    var expected := Result("areaI0", Clones(st.blocks, fits), SumArea(st.blocks));
    assert Outcome("areaI0", st.blocks, fits) == [expected];
  }

  lemma {:induction false} RunEmpty(packer: Packer, st: SearchState, plan: seq<Strategy>)
    requires st.blocks == []
    ensures Run(packer, st, plan).blocks == []
    ensures Run(packer, st, plan).results == st.results + EmptyResults(plan)
  {
    if plan != [] {
      var init := plan[..|plan| - 1];
      RunEmpty(packer, st, init);
      AttemptOnEmpty(packer, Run(packer, st, init), plan[|plan| - 1]);
      EmptyResultsSnoc(plan);
    }
  }

  /** The result of every attempt on an empty block list: nothing placed, score 0. */
  function EmptyResults(plan: seq<Strategy>): (r: seq<Result>)
    ensures |r| == |plan|
  {
    seq(|plan|, i requires 0 <= i < |plan| => Result(Label(plan[i]), [], 0))
  }

  lemma EmptyResultsSnoc(plan: seq<Strategy>)
    requires plan != []
    ensures EmptyResults(plan) == EmptyResults(plan[..|plan| - 1]) + [Result(Label(plan[|plan| - 1]), [], 0)]
  {
  }

  lemma AttemptOnEmpty(packer: Packer, st: SearchState, s: Strategy)
    requires st.blocks == []
    ensures Attempted(packer, st, s).blocks == []
    ensures Attempted(packer, st, s).results == st.results + [Result(Label(s), [], 0)]
  {
    var none: seq<ImageInfo> := [];
    assert Candidate(none, s) == none by {
      if s.BaseSort? {
        assert Sorting.Sort(none, CmpOf(s.key)) == none;
      }
    }
    assert Outcome(Label(s), [], Pack(packer, [], st.fits)) == [Result(Label(s), [], 0)];
  }

  /**
   * With no blocks there are no rotations; each of the other 29 attempts
   * places nothing, succeeds with score 0, and the first, `a`, is chosen.
   */
  lemma NoBlocksChoosesA(packer: Packer, fits: Fits, shuffles: seq<seq<nat>>)
    requires |shuffles| == RandomRounds
    ensures var fin := Run(packer, SearchState([], fits, []), Plan(0, shuffles));
      |fin.results| == 29 && Select(fin.results) == Some(Result("a", [], 0))
  {
    var plan := Plan(0, shuffles);
    RunEmpty(packer, SearchState([], fits, []), plan);
    var rs := Run(packer, SearchState([], fits, []), plan).results;
    assert rs == EmptyResults(plan);
    assert forall i :: 0 <= i < |rs| ==> rs[i].fit == 0;
    assert plan[0] == BaseSort(Prim(A));
    assert rs[0] == Result("a", [], 0);
    SelectFirst(rs);
  }

  /** A packer that places the first record of any list at the origin and no other. */
  function FirstOnly(): Packer
  {
    (bs: seq<ImageInfo>) => if bs == [] then [] else [Some(Pos(0, 0))]
  }

  /**
   * Placements carry over between attempts: with two unplaced records and a
   * packer that never places more than the first record of a list, the
   * rotation by 1 still counts as a complete packing, because the record it
   * does not place kept the placement it got in the rotation by 0.
   */
  lemma StaleFitCompletesAttempt(a: ImageInfo, b: ImageInfo, shuffles: seq<seq<nat>>)
    requires a != b
    ensures var plan := Plan(2, shuffles);
      var st := SearchState([a, b], map[a := None, b := None], []);
      && Run(FirstOnly(), st, plan[..1]).results == []
      && Run(FirstOnly(), st, plan[..2]).results == [Result("areaI1", [Placed(b, Pos(0, 0)), Placed(a, Pos(0, 0))], a.Area() + b.Area())]
      && Select(Run(FirstOnly(), st, plan).results)
         == Some(Result("areaI1", [Placed(b, Pos(0, 0)), Placed(a, Pos(0, 0))], a.Area() + b.Area()))
  {
    var plan := Plan(2, shuffles);
    var st := SearchState([a, b], map[a := None, b := None], []);
    var r := Result("areaI1", [Placed(b, Pos(0, 0)), Placed(a, Pos(0, 0))], a.Area() + b.Area());
    StaleFirstRound(a, b, shuffles);
    StaleSecondRound(a, b, shuffles);
    SelectsOnlyFirst(FirstOnly(), st, plan, 1, r);
  }

  /** When attempt `j` is the first to succeed, and alone at that, its result is the one chosen. */
  lemma SelectsOnlyFirst(packer: Packer, st: SearchState, plan: seq<Strategy>, j: nat, r: Result)
    requires st.results == [] && j < |plan|
    requires Run(packer, st, plan[..j]).results == []
    requires Run(packer, st, plan[..j + 1]).results == [r]
    ensures Select(Run(packer, st, plan).results) == Some(r)
  {
    SelectsEarliestSuccess(packer, st, plan, j);
  }

  lemma StaleFirstRound(a: ImageInfo, b: ImageInfo, shuffles: seq<seq<nat>>)
    requires a != b
    ensures var plan := Plan(2, shuffles);
      var st := SearchState([a, b], map[a := None, b := None], []);
      && plan[1] == Rotation(1)
      && Run(FirstOnly(), st, plan[..1]) == SearchState([a, b], map[a := Some(Pos(0, 0)), b := None], [])
  {
    var plan := Plan(2, shuffles);
    var st := SearchState([a, b], map[a := None, b := None], []);
    var p := FirstOnly();
    assert plan[..0] == [] && plan[0] == Rotation(0) && plan[1] == Rotation(1);
    RotationsOfTwo(a, b);
    LabelsOfFirstRotations();
    RunSnoc(p, st, plan, 0);
    FirstOnlyRounds(a, b);
  }

  lemma StaleSecondRound(a: ImageInfo, b: ImageInfo, shuffles: seq<seq<nat>>)
    requires a != b
    ensures var plan := Plan(2, shuffles);
      var st := SearchState([a, b], map[a := None, b := None], []);
      Run(FirstOnly(), st, plan[..2]).results == [Result("areaI1", [Placed(b, Pos(0, 0)), Placed(a, Pos(0, 0))], a.Area() + b.Area())]
  {
    var plan := Plan(2, shuffles);
    var st := SearchState([a, b], map[a := None, b := None], []);
    var p := FirstOnly();
    var o := Some(Pos(0, 0));
    StaleFirstRound(a, b, shuffles);
    RotationsOfTwo(a, b);
    LabelsOfFirstRotations();
    RunSnoc(p, st, plan, 1);
    FirstOnlyRounds(a, b);
    OutcomeOfTwo(a, b, map[a := o, b := o]);
  }

  lemma RotationsOfTwo(a: ImageInfo, b: ImageInfo)
    ensures RotationOf([a, b], 0) == [a, b] && RotationOf([a, b], 1) == [b, a]
  {
    RotationPermutation([a, b], 0);
  }

  lemma LabelsOfFirstRotations()
    ensures Label(Rotation(0)) == "areaI0" && Label(Rotation(1)) == "areaI1"
  {
    assert DecimalString(0) == "0" && DecimalString(1) == "1";
  }

  lemma FirstOnlyRounds(a: ImageInfo, b: ImageInfo)
    requires a != b
    ensures var o := Some(Pos(0, 0));
      var f1 := Pack(FirstOnly(), [a, b], map[a := None, b := None]);
      && f1 == map[a := o, b := None]
      && !AllPlaced([a, b], f1)
      && Pack(FirstOnly(), [b, a], f1) == map[a := o, b := o]
  {
    var p := FirstOnly();
    var o := Some(Pos(0, 0));
    assert p([a, b]) == [o] && p([b, a]) == [o];
    assert Decision(p, [a, b], 0) == o && Decision(p, [a, b], 1) == None;
    assert Decision(p, [b, a], 0) == o && Decision(p, [b, a], 1) == None;
    assert Decided(p, [a, b], a, 2, None) == o;
    assert Decided(p, [a, b], b, 1, None) == None;
    assert Decided(p, [a, b], b, 2, None) == None;
    var f1 := Pack(p, [a, b], map[a := None, b := None]);
    assert f1 == map[a := o, b := None];
    assert FitOf(f1, [a, b][1]) == None;
    assert Decided(p, [b, a], a, 1, o) == o;
    assert Decided(p, [b, a], a, 2, o) == o;
    assert Decided(p, [b, a], b, 2, None) == o;
  }

  lemma OutcomeOfTwo(a: ImageInfo, b: ImageInfo, f: Fits)
    requires a in f && b in f && f[a] == Some(Pos(0, 0)) && f[b] == Some(Pos(0, 0))
    ensures Outcome("areaI1", [b, a], f) == [Result("areaI1", [Placed(b, Pos(0, 0)), Placed(a, Pos(0, 0))], a.Area() + b.Area())]
  {
    assert AllPlaced([b, a], f);
    assert SumArea([b, a]) == a.Area() + b.Area() by {
      var ba := [b, a];
      assert ba[..1] == [b] && [b][..0] == [];
      assert SumArea([b]) == b.Area();
      assert SumArea(ba) == SumArea(ba[..1]) + a.Area();
    }
    assert Clones([b, a], f) == [Placed(b, Pos(0, 0)), Placed(a, Pos(0, 0))];
  }
}

/**
 * The component registry (`ComWillCheck`): a pattern that recognises the
 * library items of one kind of control by their linkage class name, the
 * items of that kind filed by library name, their linkage class names by
 * registration index, and the next index to hand out.
 */
module Core {
  import opened Wrappers
  import opened Flash

  /**
   * The pattern engine, left abstract: `m(s, from)` is the end of the first
   * match in `s` that starts at or after `from`, or `None` when there is none.
   */
  type Matcher = (string, nat) -> Option<nat>

  /** The outcome of one `RegExp.prototype.test` call: the answer and the new `lastIndex`. */
  datatype Exec = Exec(matched: bool, lastIndex: int)

  /**
   * `RegExp.prototype.test` as ECMAScript's RegExpBuiltinExec defines it
   * (section 22.2.7.2 of ECMA-262, without the sticky flag): a global
   * pattern starts at `lastIndex` (negative values count as 0), fails and
   * resets `lastIndex` to 0 when it starts past the end or finds nothing,
   * and on a match moves `lastIndex` to the match's end; a non-global
   * pattern always starts at 0 and never writes `lastIndex`.
   */
  function RunTest(global: bool, m: Matcher, lastIndex: int, s: string): (r: Exec)
    ensures !global ==> r.lastIndex == lastIndex && r.matched == m(s, 0).Some?
    ensures global && !r.matched ==> r.lastIndex == 0
    ensures global ==> var start := if lastIndex < 0 then 0 else lastIndex;
      && (r.matched <==> start <= |s| && m(s, start).Some?)
      && (r.matched ==> r.lastIndex == m(s, start).value)
  {
    var start: nat := if !global || lastIndex < 0 then 0 else lastIndex;
    if start > |s| then Exec(false, if global then 0 else lastIndex)
    else
      match m(s, start)
      case None => Exec(false, if global then 0 else lastIndex)
      case Some(e) => Exec(true, if global then e else lastIndex)
  }

  /** A `RegExp` object: its flag, its pattern and its mutable `lastIndex`. */
  class RegExp {
    const global: bool
    const m: Matcher
    var lastIndex: int

    constructor (global: bool, m: Matcher)
      ensures this.global == global && this.m == m && lastIndex == 0
    {
      this.global := global;
      this.m := m;
      lastIndex := 0;
    }

    /** `reg.test(s)`. */
    method Test(s: string) returns (found: bool)
      modifies this
      ensures found == RunTest(global, m, old(lastIndex), s).matched
      ensures lastIndex == RunTest(global, m, old(lastIndex), s).lastIndex
    {
      var r := RunTest(global, m, lastIndex, s);
      found := r.matched;
      lastIndex := r.lastIndex;
    }
  }

  /**
   * Once reset, a test's answer depends only on the string: two patterns
   * with the same flag and engine agree on it whatever `lastIndex` each
   * held before the reset.
   */
  lemma ResetTestIsStateless(global: bool, m: Matcher, s: string)
    ensures RunTest(global, m, 0, s).matched == m(s, 0).Some?
    ensures global ==> RunTest(global, m, 0, s).lastIndex == (if m(s, 0).Some? then m(s, 0).value else 0)
  {
  }

  /** The pattern `^A`, global: it matches `"A"` once, from the start only. */
  function StartA(): Matcher
  {
    (s: string, from: nat) => if from == 0 && |s| >= 1 && s[0] == 'A' then Some(1) else None
  }

  /**
   * Why `check` resets `lastIndex`: a global pattern keeps the end of its
   * last match, so without the reset, testing the same name twice answers
   * yes and then no, and the failed test puts `lastIndex` back to 0.
   */
  lemma StaleIndexMissesMatch()
    ensures RunTest(true, StartA(), 0, "A") == Exec(true, 1)
    ensures RunTest(true, StartA(), 1, "A") == Exec(false, 0)
  {
  }

  /** A non-global pattern answers the same whatever its `lastIndex`, and leaves it alone. */
  lemma NonGlobalIgnoresIndex(m: Matcher, i: int, j: int, s: string)
    ensures RunTest(false, m, i, s).matched == RunTest(false, m, j, s).matched
    ensures RunTest(false, m, i, s).lastIndex == i
  {
  }

  /** The dictionary the registrations in `h` build: each name holds the last item filed under it. */
  function DictOf(h: seq<FlashItem>): (r: map<string, FlashItem>)
    ensures forall k :: k in r ==> r[k].name == k
  {
    if h == [] then map[]
    else DictOf(h[..|h| - 1])[h[|h| - 1].name := h[|h| - 1]]
  }

  /** The names of the registrations in `h`, in the order each was first filed. */
  function KeyOrder(h: seq<FlashItem>): (r: seq<string>)
    ensures forall i, j :: 0 <= i < j < |r| ==> r[i] != r[j]
    ensures forall k :: k in r <==> k in DictOf(h)
  {
    if h == [] then []
    else
      var o := KeyOrder(h[..|h| - 1]);
      var k := h[|h| - 1].name;
      if k in o then o else o + [k]
  }

  /** The linkage class names of the registrations in `h`, by registration index. */
  function ClassNamesOf(h: seq<FlashItem>): (r: seq<string>)
    ensures |r| == |h|
    ensures forall i :: 0 <= i < |h| ==> r[i] == h[i].linkageClassName
  {
    seq(|h|, i requires 0 <= i < |h| => h[i].linkageClassName)
  }

  /** The index of the last registration in `h` named `k`, or -1 when there is none. */
  function LastIndexOf(h: seq<FlashItem>, k: string): (r: int)
    ensures -1 <= r < |h|
    ensures r >= 0 ==> h[r].name == k
    ensures forall j :: r < j < |h| ==> h[j].name != k
  {
    if h == [] then -1
    else if h[|h| - 1].name == k then |h| - 1
    else LastIndexOf(h[..|h| - 1], k)
  }

  /**
   * The item filed under a name is the last registration with that name,
   * and a name is filed exactly when some registration used it.
   */
  lemma {:induction false} DictOfLast(h: seq<FlashItem>, k: string)
    ensures k in DictOf(h) <==> LastIndexOf(h, k) >= 0
    ensures k in DictOf(h) ==> DictOf(h)[k] == h[LastIndexOf(h, k)]
  {
    if h != [] {
      var init, x := h[..|h| - 1], h[|h| - 1];
      DictOfLast(init, k);
      HistorySnoc(init, x);
      assert init + [x] == h;
      if x.name != k {
        var r := LastIndexOf(init, k);
        assert LastIndexOf(h, k) == r;
        assert k in DictOf(h) <==> k in DictOf(init);
        if r >= 0 {
          assert h[r] == init[r];
        }
      }
    }
  }

  /** One more registration: the effect on the dictionary, the name order and the class names. */
  lemma HistorySnoc(h: seq<FlashItem>, x: FlashItem)
    ensures DictOf(h + [x]) == DictOf(h)[x.name := x]
    ensures KeyOrder(h + [x]) == if x.name in KeyOrder(h) then KeyOrder(h) else KeyOrder(h) + [x.name]
    ensures ClassNamesOf(h + [x]) == ClassNamesOf(h) + [x.linkageClassName]
  {
    assert (h + [x])[..|h|] == h;
  }

  /** A list without repeats holds as many names as the set of its names. */
  lemma {:induction false} DistinctCount(s: seq<string>)
    requires forall i, j :: 0 <= i < j < |s| ==> s[i] != s[j]
    ensures |set k | k in s| == |s|
  {
    if s != [] {
      var init, x := s[..|s| - 1], s[|s| - 1];
      DistinctCount(init);
      assert forall i :: 0 <= i < |init| ==> init[i] == s[i] != x;
      assert (set k | k in s) == (set k | k in init) + {x};
    }
  }

  /**
   * A registry of one kind of control.  `history` is the list of items
   * registered so far (ghost); the dictionary, the order of its names, the
   * class-name list and the next index are all determined by it.
   */
  class ComWillCheck {
    const key: int
    const reg: RegExp
    const componentName: Option<string>
    var dict: map<string, FlashItem>
    var names: seq<string>
    var classNames: seq<string>
    var idx: int
    ghost var history: seq<FlashItem>

    ghost predicate Valid()
      reads this
    {
      && dict == DictOf(history)
      && names == KeyOrder(history)
      && classNames == ClassNamesOf(history)
      && idx == |history|
    }

    constructor (key: int, reg: RegExp, componentName: Option<string>)
      ensures Valid()
      ensures this.key == key && this.reg == reg && this.componentName == componentName
      ensures dict == map[] && classNames == [] && idx == 0 && history == []
    {
      this.key := key;
      this.reg := reg;
      this.componentName := componentName;
      dict := map[];
      names := [];
      classNames := [];
      idx := 0;
      history := [];
    }

    /**
     * `check(item)`: the pattern's `lastIndex` is reset, then the item's
     * linkage class name is tested, so the answer does not depend on
     * earlier tests.
     */
    method Check(item: FlashItem) returns (ok: bool)
      modifies reg
      ensures ok == reg.m(item.linkageClassName, 0).Some?
      ensures reg.lastIndex == RunTest(reg.global, reg.m, 0, item.linkageClassName).lastIndex
    {
      reg.lastIndex := 0;
      ok := reg.Test(item.linkageClassName);
      ResetTestIsStateless(reg.global, reg.m, item.linkageClassName);
    }

    /**
     * `add(item)`: the item is filed under its name (replacing an earlier
     * item of that name), stamped with the next index and the registry's
     * key, and its linkage class name is recorded at that index.
     */
    method Add(item: FlashItem)
      requires Valid()
      modifies this, item
      ensures Valid() && history == old(history) + [item]
      ensures dict == old(dict)[item.name := item]
      ensures idx == old(idx) + 1
      ensures item.idx == old(idx) && item.key == key
      ensures classNames == old(classNames) + [item.linkageClassName]
      ensures classNames[item.idx] == item.linkageClassName
    {
      ghost var h := history + [item];
      HistorySnoc(history, item);
      dict := dict[item.name := item];
      var i := idx;
      idx := idx + 1;
      Stamp(item, i);
      classNames := classNames + [item.linkageClassName];
      if item.name !in names {
        names := names + [item.name];
      }
      history := h;
    }

    /** The `$idx` and `$key` properties that `add` writes onto the item. */
    method Stamp(item: FlashItem, i: int)
      modifies item
      ensures item.idx == i && item.key == key
    {
      item.idx := i;
      item.key := key;
    }

    /**
     * `forEach(handler, ...)`: the handler is called once for every name in
     * the dictionary, with the item filed under it; the visited items are
     * returned, in the order of the calls, and the registry is not changed.
     */
    method ForEach() returns (visited: seq<FlashItem>)
      requires Valid()
      ensures |visited| == |names| == |dict|
      ensures forall i :: 0 <= i < |visited| ==> names[i] in dict && visited[i] == dict[names[i]]
      ensures forall k :: k in dict ==> exists i :: 0 <= i < |names| && names[i] == k
    {
      visited := [];
      var i := 0;
      while i < |names|
        invariant 0 <= i <= |names|
        invariant |visited| == i
        invariant forall j :: 0 <= j < i ==> visited[j] == dict[names[j]]
      {
        visited := visited + [dict[names[i]]];
        i := i + 1;
      }
      DistinctCount(names);
      assert (set k | k in names) == dict.Keys;
    }
  }
}

/**
 * The ranking helpers of `NormalRankingRecommenderEvaulator`, which compare
 * the order of a user's preferences in the data model (`prefsDM`) with their
 * order in a recommender's output (`prefsR`). A Java `Preference[]` is an
 * array of optional preferences, `None` standing for `null`.
 */
module NormalRanking {
  import opened Wrappers
  import opened IntSort

  /** `GenericPreference`: a user, an item and a preference value. */
  datatype Preference = Preference(userID: int, itemID: int, value: real)

  /** The item at index i, or None where reading it throws (index out of range or null entry). */
  function ItemAt(a: seq<Option<Preference>>, i: int): (m: Option<int>)
  {
    if 0 <= i < |a| && a[i].Some? then Some(a[i].value.itemID) else None
  }

  /** Every entry holds a preference. */
  predicate Filled(a: seq<Option<Preference>>)
  {
    forall i :: 0 <= i < |a| ==> a[i].Some?
  }

  // ---------------------------------------------------------------- sloppyHamming

  /**
   * One iteration of `sloppyHamming` at index i: None when a read throws,
   * else whether the recommended item at i is outside the data model's
   * window i-1 .. i+1. The reads go in the source's short-circuit order:
   * prefsR[i], prefsDM[i], prefsDM[i+1], prefsDM[i-1].
   */
  function HammingStep(dm: seq<Option<Preference>>, r: seq<Option<Preference>>, i: int): (m: Option<bool>)
  {
    match ItemAt(r, i)
    case None => None
    case Some(item) =>
      match ItemAt(dm, i)
      case None => None
      case Some(here) =>
        if here == item then Some(false)
        else match ItemAt(dm, i + 1)
          case None => None
          case Some(next) =>
            if next == item then Some(false)
            else match ItemAt(dm, i - 1)
              case None => None
              case Some(prev) => Some(prev != item)
  }

  /**
   * The count `sloppyHamming` accumulates from index i on. The loop runs over
   * the interior indices 1 .. |dm|-2, and a throwing read ends it: the
   * exception is caught and the count so far returned.
   */
  function HammingFrom(dm: seq<Option<Preference>>, r: seq<Option<Preference>>, i: nat): (count: nat)
    decreases |dm| - i
  {
    if i + 1 >= |dm| then 0
    else match HammingStep(dm, r, i)
      case None => 0
      case Some(misplaced) => (if misplaced then 1 else 0) + HammingFrom(dm, r, i + 1)
  }

  /** `sloppyHamming`: the number of misplaced interior items, stopping at the first throwing read. */
  method SloppyHamming(prefsDM: array<Option<Preference>>, prefsR: array<Option<Preference>>) returns (count: nat)
    ensures count == HammingFrom(prefsDM[..], prefsR[..], 1)
    ensures count <= if prefsDM.Length >= 2 then prefsDM.Length - 2 else 0
  {
    ghost var dm, r := prefsDM[..], prefsR[..];
    HammingBound(dm, r, 1);
    count := 0;
    var i := 1;
    while i < prefsDM.Length - 1
      invariant 1 <= i
      invariant count + HammingFrom(dm, r, i) == HammingFrom(dm, r, 1)
      decreases prefsDM.Length - i
    {
      if i >= prefsR.Length || prefsR[i].None? { break; }
      var itemID := prefsR[i].value.itemID;
      if prefsDM[i].None? { break; }
      if prefsDM[i].value.itemID != itemID {
        if prefsDM[i + 1].None? { break; }
        if prefsDM[i + 1].value.itemID != itemID {
          if prefsDM[i - 1].None? { break; }
          if prefsDM[i - 1].value.itemID != itemID {
            count := count + 1;
          }
        }
      }
      i := i + 1;
    }
  }

  /** From index i on, at most one per remaining interior index is counted. */
  lemma {:induction false} HammingBound(dm: seq<Option<Preference>>, r: seq<Option<Preference>>, i: nat)
    ensures HammingFrom(dm, r, i) <= if i + 1 < |dm| then |dm| - 1 - i else 0
    decreases |dm| - i
  {
    if i + 1 < |dm| && HammingStep(dm, r, i).Some? {
      HammingBound(dm, r, i + 1);
    }
  }

  /** Interior index i whose recommended item is in none of the data model's slots i-1, i, i+1. */
  predicate Misplaced(dm: seq<Option<Preference>>, r: seq<Option<Preference>>, i: int)
    requires 1 <= i < |dm| - 1 && Filled(dm) && ItemAt(r, i).Some?
  {
    var item := ItemAt(r, i).value;
    item != dm[i - 1].value.itemID && item != dm[i].value.itemID && item != dm[i + 1].value.itemID
  }

  /** Entries 1 .. |dm|-2 of the recommendation are present. */
  predicate InteriorFilled(dm: seq<Option<Preference>>, r: seq<Option<Preference>>)
  {
    Filled(dm) && (forall i :: 1 <= i < |dm| - 1 ==> ItemAt(r, i).Some?)
  }

  /** The misplaced interior indices from i on. */
  function MisplacedFrom(dm: seq<Option<Preference>>, r: seq<Option<Preference>>, i: int): set<int>
    requires InteriorFilled(dm, r)
  {
    set k | i <= k < |dm| - 1 && 1 <= k && Misplaced(dm, r, k)
  }

  /**
   * With no null entries and a long enough recommendation, nothing throws,
   * and `sloppyHamming` is the number of misplaced interior indices.
   */
  lemma {:induction false} HammingCountsMisplaced(dm: seq<Option<Preference>>, r: seq<Option<Preference>>, i: nat)
    requires InteriorFilled(dm, r) && 1 <= i
    ensures HammingFrom(dm, r, i) == |MisplacedFrom(dm, r, i)|
    decreases |dm| - i
  {
    if i + 1 >= |dm| {
      MisplacedPastEnd(dm, r, i);
    } else {
      HammingCountsMisplaced(dm, r, i + 1);
      HammingStepMisplaced(dm, r, i);
      MisplacedFromStep(dm, r, i);
    }
  }

  /** Past the interior nothing is misplaced. */
  lemma MisplacedPastEnd(dm: seq<Option<Preference>>, r: seq<Option<Preference>>, i: int)
    requires InteriorFilled(dm, r) && i + 1 >= |dm|
    ensures MisplacedFrom(dm, r, i) == {}
  {
    assert forall k :: k in MisplacedFrom(dm, r, i) ==> i <= k < |dm| - 1;
  }

  /** Without nulls, one interior step reads nothing that throws and tells whether i is misplaced. */
  lemma HammingStepMisplaced(dm: seq<Option<Preference>>, r: seq<Option<Preference>>, i: int)
    requires InteriorFilled(dm, r) && 1 <= i < |dm| - 1
    ensures HammingStep(dm, r, i) == Some(Misplaced(dm, r, i))
  {
    assert ItemAt(dm, i - 1).Some? && ItemAt(dm, i).Some? && ItemAt(dm, i + 1).Some?;
  }

  /** The misplaced indices from i on: i itself if misplaced, and those from i + 1 on. */
  lemma MisplacedFromStep(dm: seq<Option<Preference>>, r: seq<Option<Preference>>, i: int)
    requires InteriorFilled(dm, r) && 1 <= i < |dm| - 1
    ensures i !in MisplacedFrom(dm, r, i + 1)
    ensures MisplacedFrom(dm, r, i) == MisplacedFrom(dm, r, i + 1) + (if Misplaced(dm, r, i) then {i} else {})
  {
  }

  /** A recommendation in the data model's own order has nothing misplaced. */
  lemma {:induction false} HammingSameOrder(dm: seq<Option<Preference>>, r: seq<Option<Preference>>, i: nat)
    requires Filled(dm) && |r| >= |dm|
    requires forall k :: 0 <= k < |dm| ==> ItemAt(r, k) == ItemAt(dm, k)
    ensures HammingFrom(dm, r, i) == 0
    decreases |dm| - i
  {
    if i + 1 < |dm| {
      assert HammingStep(dm, r, i) == Some(false);
      HammingSameOrder(dm, r, i + 1);
    }
  }

  // ---------------------------------------------------------------- getVectorZ

  /** The recommendation still offers item at index j. */
  predicate Holds(r: seq<Option<Preference>>, j: int, item: int)
  {
    ItemAt(r, j) == Some(item)
  }

  /** The first index j in lo .. hi whose entry holds item, as the inner loop of `getVectorZ` finds it. */
  function FirstMatch(r: seq<Option<Preference>>, item: int, lo: int, hi: int): (m: Option<int>)
    ensures m.Some? ==> lo <= m.value <= hi && Holds(r, m.value, item)
    decreases hi - lo
  {
    if lo > hi then None
    else if Holds(r, lo, item) then Some(lo)
    else FirstMatch(r, item, lo + 1, hi)
  }

  /** FirstMatch finds the first holding index, and None means no index of lo .. hi holds item. */
  lemma {:induction false} FirstMatchIsFirst(r: seq<Option<Preference>>, item: int, lo: int, hi: int)
    ensures FirstMatch(r, item, lo, hi).Some? ==>
      forall k :: lo <= k < FirstMatch(r, item, lo, hi).value ==> !Holds(r, k, item)
    ensures FirstMatch(r, item, lo, hi).None? ==> forall k :: lo <= k <= hi ==> !Holds(r, k, item)
    decreases hi - lo
  {
    if lo <= hi && !Holds(r, lo, item) {
      FirstMatchIsFirst(r, item, lo + 1, hi);
    }
  }

  /** The search window of `getVectorZ`: indices bottom .. top of the recommendation, with nulled entries. */
  datatype Window = Window(bottom: int, top: int, r: seq<Option<Preference>>)

  /** Index j used up: the window closes in from the bottom or the top, else the entry is nulled. */
  function Take(w: Window, j: int): (w': Window)
    requires 0 <= j < |w.r|
  {
    if j == w.bottom then w.(bottom := w.bottom + 1)
    else if j == w.top then w.(top := w.top - 1)
    else w.(r := w.r[j := None])
  }

  /** The state after some outer iterations: the window, and for each data-model index its matched index. */
  datatype Scan = Scan(window: Window, matchOf: seq<Option<int>>)

  /** One outer iteration: record the inner loop's outcome m and use up the matched index. */
  function Advance(prev: Scan, m: Option<int>): (next: Scan)
  {
    Scan(if m.Some? && 0 <= m.value < |prev.window.r| then Take(prev.window, m.value) else prev.window,
         prev.matchOf + [m])
  }

  /**
   * `getVectorZ` after its first n outer iterations over the data model's
   * items: item k is matched to the first index of the window that holds it,
   * and that index is then used up.
   */
  function Run(items: seq<int>, r0: seq<Option<Preference>>, n: nat): (s: Scan)
    requires n <= |items| == |r0|
    ensures |s.matchOf| == n && |s.window.r| == |r0|
  {
    if n == 0 then Scan(Window(0, |items| - 1, r0), [])
    else
      var prev := Run(items, r0, n - 1);
      Advance(prev, FirstMatch(prev.window.r, items[n - 1], prev.window.bottom, prev.window.top))
  }

  /** The data model's items, one per entry. */
  function ItemsOf(a: seq<Option<Preference>>): (items: seq<int>)
    requires Filled(a)
    ensures |items| == |a|
    ensures forall i :: 0 <= i < |a| ==> ItemAt(a, i) == Some(items[i])
  {
    seq(|a|, i requires 0 <= i < |a| => a[i].value.itemID)
  }

  /** Java's `Math.abs` on an `int` that cannot overflow. */
  function Abs(x: int): (y: nat)
    ensures y == x || y == -x
  {
    if x < 0 then -x else x
  }

  /**
   * `getVectorZ`: for each data-model index i whose item the recommendation
   * still offers, vectorZ[i] becomes i - j and vectorZabs[i] its magnitude,
   * where j is the first offering index of the window; the others keep their
   * values. prefsR ends as the run leaves it.
   */
  method GetVectorZ(prefsDM: array<Option<Preference>>, prefsR: array<Option<Preference>>,
                    vectorZ: array<int>, vectorZabs: array<int>)
    requires Filled(prefsDM[..])
    requires prefsR.Length == prefsDM.Length && prefsR != prefsDM
    requires vectorZ.Length == prefsDM.Length && vectorZabs.Length == prefsDM.Length && vectorZ != vectorZabs
    modifies prefsR, vectorZ, vectorZabs
    ensures var s := Run(ItemsOf(prefsDM[..]), old(prefsR[..]), prefsDM.Length);
      && prefsR[..] == s.window.r
      && Displacements(vectorZ[..], vectorZabs[..], old(vectorZ[..]), old(vectorZabs[..]), s.matchOf)
  {
    ghost var items := ItemsOf(prefsDM[..]);
    ghost var r0 := prefsR[..];
    ghost var matches: seq<Option<int>> := [];
    var nitems := prefsDM.Length;
    var bottom := 0;
    var top := nitems - 1;
    for i := 0 to nitems
      invariant |matches| == i
      invariant Run(items, r0, i) == Scan(Window(bottom, top, prefsR[..]), matches)
      invariant Displacements(vectorZ[..], vectorZabs[..], old(vectorZ[..]), old(vectorZabs[..]), matches)
    {
      WindowBounds(items, r0, i);
      var itemID := prefsDM[i].value.itemID;
      assert itemID == items[i];
      ghost var z, zabs := vectorZ[..], vectorZabs[..];
      var found := FindInWindow(prefsR, itemID, bottom, top);
      if found.Some? {
        var j := found.value;
        vectorZ[i] := i - j;
        vectorZabs[i] := Abs(i - j);
        assert vectorZ[..] == z[i := i - j] && vectorZabs[..] == zabs[i := Abs(i - j)];
        bottom, top := TakeIndex(prefsR, j, bottom, top);
      }
      RunStep(items, r0, i);
      DisplacementsStep(z, zabs, old(vectorZ[..]), old(vectorZabs[..]), matches, found, vectorZ[..], vectorZabs[..]);
      matches := matches + [found];
    }
  }

  /**
   * The inner loop of `getVectorZ`: scan bottom .. top, skipping null
   * entries, up to the first entry holding item; the writes the source does
   * before its `break` follow the call.
   */
  method FindInWindow(prefsR: array<Option<Preference>>, item: int, bottom: int, top: int) returns (found: Option<int>)
    requires 0 <= bottom && top < prefsR.Length
    ensures found == FirstMatch(prefsR[..], item, bottom, top)
  {
    var j := bottom;
    while j <= top
      invariant bottom <= j && (bottom <= top + 1 ==> j <= top + 1)
      invariant forall k :: bottom <= k < j ==> !Holds(prefsR[..], k, item)
      decreases top - j
    {
      if prefsR[j] == None {
        j := j + 1;
        continue;
      }
      var test := prefsR[j].value.itemID;
      if item == test {
        assert Holds(prefsR[..], j, item);
        FoundIsFirst(prefsR[..], item, bottom, top, Some(j));
        return Some(j);
      }
      j := j + 1;
    }
    FoundIsFirst(prefsR[..], item, bottom, top, None);
    return None;
  }

  /** Index j used up after a match: `bottom` or `top` moves past it, or else its entry is nulled. */
  method TakeIndex(prefsR: array<Option<Preference>>, j: int, bottom: int, top: int) returns (bottom': int, top': int)
    requires 0 <= j < prefsR.Length
    modifies prefsR
    ensures Window(bottom', top', prefsR[..]) == Take(Window(bottom, top, old(prefsR[..])), j)
  {
    bottom', top' := bottom, top;
    if j == bottom {
      bottom' := bottom + 1;
    } else if j == top {
      top' := top - 1;
    } else {
      prefsR[j] := None;
    }
  }

  /**
   * The displacement arrays after the matches so far: i - j and its
   * magnitude where index i was matched to j, the old values elsewhere.
   */
  ghost predicate Displacements(z: seq<int>, zabs: seq<int>, z0: seq<int>, zabs0: seq<int>, matches: seq<Option<int>>)
  {
    && |z| == |z0| && |zabs| == |zabs0| && |zabs0| == |z0| && |matches| <= |z0|
    && (forall k :: 0 <= k < |matches| ==>
          if matches[k].Some? then z[k] == k - matches[k].value && zabs[k] == Abs(k - matches[k].value)
          else z[k] == z0[k] && zabs[k] == zabs0[k])
    && (forall k :: |matches| <= k < |z0| ==> z[k] == z0[k] && zabs[k] == zabs0[k])
  }

  lemma DisplacementsStep(z: seq<int>, zabs: seq<int>, z0: seq<int>, zabs0: seq<int>, matches: seq<Option<int>>,
                          found: Option<int>, z': seq<int>, zabs': seq<int>)
    requires Displacements(z, zabs, z0, zabs0, matches) && |matches| < |z0|
    requires found.None? ==> z' == z && zabs' == zabs
    requires found.Some? ==>
      var i := |matches|;
      z' == z[i := i - found.value] && zabs' == zabs[i := Abs(i - found.value)]
    ensures Displacements(z', zabs', z0, zabs0, matches + [found])
  {
  }

  /** The inner loop's outcome is FirstMatch. */
  lemma FoundIsFirst(r: seq<Option<Preference>>, item: int, lo: int, hi: int, found: Option<int>)
    requires found.Some? ==> lo <= found.value <= hi && Holds(r, found.value, item)
    requires found.Some? ==> forall k :: lo <= k < found.value ==> !Holds(r, k, item)
    requires found.None? ==> forall k :: lo <= k <= hi ==> !Holds(r, k, item)
    ensures found == FirstMatch(r, item, lo, hi)
  {
    FirstMatchIsFirst(r, item, lo, hi);
  }

  /** One outer iteration of `getVectorZ`, unfolded. */
  lemma RunStep(items: seq<int>, r0: seq<Option<Preference>>, n: nat)
    requires n < |items| == |r0|
    ensures var prev := Run(items, r0, n);
      Run(items, r0, n + 1) == Advance(prev, FirstMatch(prev.window.r, items[n], prev.window.bottom, prev.window.top))
  {
  }

  /** The window stays inside the recommendation's indices. */
  lemma {:induction false} WindowBounds(items: seq<int>, r0: seq<Option<Preference>>, n: nat)
    requires n <= |items| == |r0|
    ensures 0 <= Run(items, r0, n).window.bottom
    ensures Run(items, r0, n).window.top < |items|
    ensures Run(items, r0, n).window.bottom <= Run(items, r0, n).window.top + 1
  {
    if n > 0 {
      WindowBounds(items, r0, n - 1);
    }
  }

  /** Some data-model index among the first |s.matchOf| was matched to j. */
  ghost predicate Matched(s: Scan, j: int)
  {
    exists k :: 0 <= k < |s.matchOf| && s.matchOf[k] == Some(j)
  }

  /** Index j is inside the window and not nulled: the inner loop can still match it. */
  predicate Open(w: Window, j: int)
  {
    w.bottom <= j <= w.top && 0 <= j < |w.r| && w.r[j].Some?
  }

  /**
   * What the scan keeps: entries are the original or nulled; an index has been
   * matched exactly when it held a preference and is no longer open; and each
   * match is to an index of the same item.
   */
  ghost predicate Consistent(items: seq<int>, r0: seq<Option<Preference>>, s: Scan)
    requires |s.matchOf| <= |items| && |s.window.r| == |r0|
  {
    && (forall j :: 0 <= j < |r0| ==> s.window.r[j] == r0[j] || s.window.r[j] == None)
    && (forall j :: 0 <= j < |r0| ==> (Matched(s, j) <==> r0[j].Some? && !Open(s.window, j)))
    && (forall k :: 0 <= k < |s.matchOf| && s.matchOf[k].Some? ==> Holds(r0, s.matchOf[k].value, items[k]))
    && (forall k1, k2 :: 0 <= k1 < k2 < |s.matchOf| && s.matchOf[k1].Some? ==> s.matchOf[k1] != s.matchOf[k2])
  }

  lemma {:induction false} RunConsistent(items: seq<int>, r0: seq<Option<Preference>>, n: nat)
    requires n <= |items| == |r0|
    ensures Consistent(items, r0, Run(items, r0, n))
  {
    if n == 0 {
      ConsistentStart(items, r0);
    } else {
      RunConsistent(items, r0, n - 1);
      ConsistentAt(items, r0, n);
    }
  }

  /** Before the first outer iteration nothing is matched and nothing nulled. */
  lemma ConsistentStart(items: seq<int>, r0: seq<Option<Preference>>)
    requires |items| == |r0|
    ensures Consistent(items, r0, Run(items, r0, 0))
  {
    var s := Run(items, r0, 0);
    forall j | 0 <= j < |r0|
      ensures Matched(s, j) <==> r0[j].Some? && !Open(s.window, j)
    {
      assert !Matched(s, j);
      assert r0[j].Some? ==> Open(s.window, j);
    }
  }

  /** The outer iteration that ends with n items done keeps the scan consistent. */
  lemma ConsistentAt(items: seq<int>, r0: seq<Option<Preference>>, n: nat)
    requires 0 < n <= |items| == |r0|
    requires Consistent(items, r0, Run(items, r0, n - 1))
    ensures Consistent(items, r0, Run(items, r0, n))
  {
    WindowBounds(items, r0, n - 1);
    var prev := Run(items, r0, n - 1);
    var w := prev.window;
    ConsistentStep(items, r0, prev, FirstMatch(w.r, items[n - 1], w.bottom, w.top));
  }

  lemma ConsistentStep(items: seq<int>, r0: seq<Option<Preference>>, prev: Scan, m: Option<int>)
    requires |prev.matchOf| < |items| == |r0| == |prev.window.r|
    requires Consistent(items, r0, prev)
    requires 0 <= prev.window.bottom && prev.window.top < |r0|
    requires m == FirstMatch(prev.window.r, items[|prev.matchOf|], prev.window.bottom, prev.window.top)
    ensures Consistent(items, r0, Advance(prev, m))
  {
    var next := Advance(prev, m);
    var n := |prev.matchOf|;
    MatchedStep(prev, m);
    forall k | 0 <= k <= n && next.matchOf[k].Some?
      ensures Holds(r0, next.matchOf[k].value, items[k])
    {
      if k == n {
        var j := m.value;
        assert Holds(prev.window.r, j, items[n]);
        assert prev.window.r[j] == r0[j];
      } else {
        assert next.matchOf[k] == prev.matchOf[k];
      }
    }
    forall k1, k2 | 0 <= k1 < k2 <= n && next.matchOf[k1].Some?
      ensures next.matchOf[k1] != next.matchOf[k2]
    {
      assert next.matchOf[k1] == prev.matchOf[k1];
      if k2 == n && m.Some? {
        assert Open(prev.window, m.value);
        assert !Matched(prev, m.value);
      } else if k2 < n {
        assert next.matchOf[k2] == prev.matchOf[k2];
      }
    }
    forall j | 0 <= j < |r0|
      ensures Matched(next, j) <==> r0[j].Some? && !Open(next.window, j)
    {
      assert Matched(next, j) <==> Matched(prev, j) || m == Some(j);
      if m == Some(j) {
        assert Open(prev.window, j);
      }
    }
  }

  /** The indices matched after a step: those matched before, and the new match. */
  lemma MatchedStep(prev: Scan, m: Option<int>)
    ensures forall j :: Matched(Advance(prev, m), j) <==> Matched(prev, j) || m == Some(j)
  {
    var next := Advance(prev, m);
    var n := |prev.matchOf|;
    forall j
      ensures Matched(next, j) <==> Matched(prev, j) || m == Some(j)
    {
      if Matched(next, j) {
        var k :| 0 <= k < |next.matchOf| && next.matchOf[k] == Some(j);
        if k < n {
          assert prev.matchOf[k] == Some(j);
        }
      }
      if Matched(prev, j) {
        var k :| 0 <= k < |prev.matchOf| && prev.matchOf[k] == Some(j);
        assert next.matchOf[k] == Some(j);
      }
      if m == Some(j) {
        assert next.matchOf[n] == Some(j);
      }
    }
  }

  /** Each match pairs a data-model index with an index of the recommendation holding the same item. */
  lemma MatchSameItem(items: seq<int>, r0: seq<Option<Preference>>)
    requires |items| == |r0|
    ensures var s := Run(items, r0, |items|);
      forall k :: 0 <= k < |items| && s.matchOf[k].Some? ==> Holds(r0, s.matchOf[k].value, items[k])
  {
    RunConsistent(items, r0, |items|);
  }

  /** The scan only nulls entries, and only entries it has matched. */
  lemma NullsOnlyMatched(items: seq<int>, r0: seq<Option<Preference>>)
    requires |items| == |r0|
    ensures var s := Run(items, r0, |items|);
      forall j :: 0 <= j < |r0| && s.window.r[j] != r0[j] ==> s.window.r[j] == None && Matched(s, j)
  {
    RunConsistent(items, r0, |items|);
    var s := Run(items, r0, |items|);
    forall j | 0 <= j < |r0| && s.window.r[j] != r0[j]
      ensures s.window.r[j] == None && Matched(s, j)
    {
      assert s.window.r[j] == None;
      assert r0[j].Some? && !Open(s.window, j);
    }
  }

  /** A step nulls an entry only strictly between `bottom` and `top`; a match at either end closes the window instead. */
  lemma AdvanceNullsInside(prev: Scan, item: int, j: int)
    requires 0 <= j < |prev.window.r|
    requires Advance(prev, FirstMatch(prev.window.r, item, prev.window.bottom, prev.window.top)).window.r[j]
             != prev.window.r[j]
    ensures prev.window.bottom < j < prev.window.top
  {
  }

  /** Over the whole run the first and the last entry of the recommendation are never nulled. */
  lemma {:induction false} NullsInterior(items: seq<int>, r0: seq<Option<Preference>>, n: nat)
    requires n <= |items| == |r0|
    ensures forall j :: 0 <= j < |r0| && Run(items, r0, n).window.r[j] != r0[j] ==> 0 < j < |r0| - 1
  {
    if n > 0 {
      NullsInterior(items, r0, n - 1);
      WindowBounds(items, r0, n - 1);
      var prev := Run(items, r0, n - 1);
      var next := Run(items, r0, n);
      forall j | 0 <= j < |r0| && next.window.r[j] != r0[j]
        ensures 0 < j < |r0| - 1
      {
        if next.window.r[j] != prev.window.r[j] {
          AdvanceNullsInside(prev, items[n - 1], j);
        }
      }
    }
  }

  /** No index of the recommendation is matched twice. */
  lemma MatchesInjective(items: seq<int>, r0: seq<Option<Preference>>)
    requires |items| == |r0|
    ensures var s := Run(items, r0, |items|);
      forall k1, k2 :: 0 <= k1 < k2 < |items| && s.matchOf[k1].Some? ==> s.matchOf[k1] != s.matchOf[k2]
  {
    RunConsistent(items, r0, |items|);
  }

  /** Every index of the recommendation held the data model's item at that index. */
  predicate SameOrder(items: seq<int>, r0: seq<Option<Preference>>)
  {
    |items| == |r0| && forall j :: 0 <= j < |r0| ==> Holds(r0, j, items[j])
  }

  lemma {:induction false} SameOrderRun(items: seq<int>, r0: seq<Option<Preference>>, n: nat)
    requires SameOrder(items, r0) && n <= |items|
    ensures Run(items, r0, n).window == Window(n, |items| - 1, r0)
    ensures forall k :: 0 <= k < n ==> Run(items, r0, n).matchOf[k] == Some(k)
  {
    if n > 0 {
      SameOrderRun(items, r0, n - 1);
      var prev := Run(items, r0, n - 1);
      assert Holds(r0, n - 1, items[n - 1]);
      var m := FirstMatch(prev.window.r, items[n - 1], prev.window.bottom, prev.window.top);
      assert m == Some(n - 1);
      assert Run(items, r0, n) == Scan(Window(n, |items| - 1, r0), prev.matchOf + [m]);
    }
  }

  /** With the recommendation in the data model's order, each item is matched in place: every displacement is 0. */
  lemma SameOrderMatchesInPlace(items: seq<int>, r0: seq<Option<Preference>>)
    requires SameOrder(items, r0)
    ensures forall k :: 0 <= k < |items| ==> Run(items, r0, |items|).matchOf[k] == Some(k)
  {
    SameOrderRun(items, r0, |items|);
  }

  /** No item occurs twice. */
  predicate Distinct(items: seq<int>)
  {
    forall k1, k2 :: 0 <= k1 < k2 < |items| ==> items[k1] != items[k2]
  }

  /** Every item of the data model is held somewhere in the recommendation. */
  predicate AllOffered(items: seq<int>, r0: seq<Option<Preference>>)
  {
    forall k :: 0 <= k < |items| ==> exists j :: 0 <= j < |r0| && Holds(r0, j, items[k])
  }

  /** With distinct items, an item the recommendation offers is still open when its turn comes. */
  lemma OfferedIsFound(items: seq<int>, r0: seq<Option<Preference>>, prev: Scan, j: int)
    requires |prev.matchOf| < |items| == |r0| == |prev.window.r|
    requires Consistent(items, r0, prev) && Distinct(items)
    requires Holds(r0, j, items[|prev.matchOf|])
    ensures FirstMatch(prev.window.r, items[|prev.matchOf|], prev.window.bottom, prev.window.top).Some?
  {
    var n := |prev.matchOf|;
    var w := prev.window;
    assert !Matched(prev, j);
    assert Open(w, j);
    assert Holds(w.r, j, items[n]);
    FirstMatchIsFirst(w.r, items[n], w.bottom, w.top);
  }

  lemma {:induction false} AllMatchedRun(items: seq<int>, r0: seq<Option<Preference>>, n: nat)
    requires n <= |items| == |r0| && Distinct(items) && AllOffered(items, r0)
    ensures forall k :: 0 <= k < n ==> Run(items, r0, n).matchOf[k].Some?
  {
    if n > 0 {
      AllMatchedRun(items, r0, n - 1);
      RunStep(items, r0, n - 1);
      OfferedAtTurn(items, r0, n - 1);
    }
  }

  /** The search for data-model item n finds something. */
  lemma OfferedAtTurn(items: seq<int>, r0: seq<Option<Preference>>, n: nat)
    requires n < |items| == |r0| && Distinct(items) && AllOffered(items, r0)
    ensures var prev := Run(items, r0, n);
      FirstMatch(prev.window.r, items[n], prev.window.bottom, prev.window.top).Some?
  {
    RunConsistent(items, r0, n);
    var j :| 0 <= j < |r0| && Holds(r0, j, items[n]);
    OfferedIsFound(items, r0, Run(items, r0, n), j);
  }

  /**
   * When both lists hold the same distinct items ("both sample from the same
   * set"), every data-model index is matched, so every displacement is set.
   */
  lemma AllMatched(items: seq<int>, r0: seq<Option<Preference>>)
    requires |items| == |r0| && Distinct(items) && AllOffered(items, r0)
    ensures forall k :: 0 <= k < |items| ==> Run(items, r0, |items|).matchOf[k].Some?
  {
    AllMatchedRun(items, r0, |items|);
  }

  // ---------------------------------------------------------------- wilcoxonRanks

  /** The inner loop's `rank` over the first j sorted entries: (k + 1) - zeros for each entry k equal to score. */
  function RankSum(sorted: seq<int>, score: int, zeros: int, j: nat): (rank: real)
    requires j <= |sorted|
  {
    if j == 0 then 0.0
    else RankSum(sorted, score, zeros, j - 1) + (if sorted[j - 1] == score then (j - zeros) as real else 0.0)
  }

  /** The inner loop's `count` over the first j sorted entries: the entries equal to score. */
  function TieCount(sorted: seq<int>, score: int, j: nat): (count: nat)
    requires j <= |sorted|
  {
    if j == 0 then 0 else TieCount(sorted, score, j - 1) + (if sorted[j - 1] == score then 1 else 0)
  }

  /**
   * The mean of the 1-based positions that score takes in sorted order,
   * positions CountLess + 1 .. CountLeq, less the number of zeros.
   */
  function AverageRank(s: seq<int>, score: int, zeros: int): (mean: real)
  {
    (CountLess(s, score) + CountLeq(s, score) + 1) as real / 2.0 - zeros as real
  }

  /** Java's `q * ((z < 0) ? -1 : 1)`: q carrying the sign of the displacement z, with 0 counted as positive. */
  function WithSign(q: real, z: int): (signed: real)
  {
    if z < 0 then -q else q
  }

  /** `Math.abs` on a rank. */
  function RealAbs(x: real): (y: real)
    ensures y >= 0.0 && (y == x || y == -x)
  {
    if x < 0.0 then -x else x
  }

  /** The sum of the ranks lo + 1 - z .. lo + c - z of a run of c tied entries after lo smaller ones. */
  function TieSum(c: nat, lo: int, z: int): (sum: real)
  {
    (c as real) * ((2 * lo + c + 1) as real / 2.0 - z as real)
  }

  lemma TieSumStep(c: nat, lo: int, z: int)
    ensures TieSum(c, lo, z) + ((lo + c + 1) - z) as real == TieSum(c + 1, lo, z)
  {
    var C, L, Z := c as real, lo as real, z as real;
    assert TieSum(c, lo, z) == C * L + C * (C + 1.0) / 2.0 - C * Z;
    assert TieSum(c + 1, lo, z) == (C + 1.0) * L + (C + 1.0) * (C + 2.0) / 2.0 - (C + 1.0) * Z;
  }

  /**
   * Over sorted entries, the inner loop's sums up to any j between
   * lo = CountLess and hi = CountLeq cover exactly the tied entries lo .. j-1.
   */
  lemma {:induction false} RankSumOverTies(s: seq<int>, x: int, z: int, j: nat)
    requires Sorted(s) && CountLess(s, x) <= j <= CountLeq(s, x)
    ensures TieCount(s, x, j) == j - CountLess(s, x)
    ensures RankSum(s, x, z, j) == TieSum(j - CountLess(s, x), CountLess(s, x), z)
    decreases j
  {
    var lo := CountLess(s, x);
    SortedCountLess(s, x);
    SortedCountLeq(s, x);
    if j == lo {
      RankSumTail(s, x, z, 0, lo);
    } else {
      RankSumOverTies(s, x, z, j - 1);
      assert s[j - 1] == x;
      TieSumStep(j - 1 - lo, lo, z);
    }
  }

  /** The loop's quotient rank / count is the average sorted position of score, less zeros. */
  lemma RankQuotient(s: seq<int>, x: int, z: int)
    requires Sorted(s) && x in s
    ensures TieCount(s, x, |s|) > 0
    ensures RankSum(s, x, z, |s|) / TieCount(s, x, |s|) as real == AverageRank(s, x, z)
  {
    var lo, hi := CountLess(s, x), CountLeq(s, x);
    CountLessLeq(s, x);
    RankSumOverTies(s, x, z, hi);
    NoTiesAbove(s, x);
    RankSumTail(s, x, z, hi, |s|);
    TieSumQuotient(hi - lo, lo, z);
  }

  /** Past CountLeq a sorted sequence holds only larger entries. */
  lemma NoTiesAbove(s: seq<int>, x: int)
    requires Sorted(s)
    ensures forall k :: CountLeq(s, x) <= k < |s| ==> s[k] != x
  {
    SortedCountLeq(s, x);
  }

  /** Dividing the sum of c tied ranks by c gives their mean. */
  lemma TieSumQuotient(c: nat, lo: int, z: int)
    requires c > 0
    ensures TieSum(c, lo, z) / c as real == (2 * lo + c + 1) as real / 2.0 - z as real
  {
    var a := (2 * lo + c + 1) as real / 2.0 - z as real;
    assert TieSum(c, lo, z) == (c as real) * a;
  }

  /** In sorted order, once an entry exceeds score the inner loop can stop: nothing further is added. */
  lemma RankSumStops(s: seq<int>, x: int, z: int, j: nat)
    requires Sorted(s) && j < |s| && x < s[j]
    ensures RankSum(s, x, z, |s|) == RankSum(s, x, z, j) && TieCount(s, x, |s|) == TieCount(s, x, j)
  {
    RankSumTail(s, x, z, j, |s|);
  }

  /** Entries past the first one above score add nothing to the loop's sums. */
  lemma {:induction false} RankSumTail(s: seq<int>, x: int, z: int, j: nat, n: nat)
    requires j <= n <= |s|
    requires forall k :: j <= k < n ==> s[k] != x
    ensures RankSum(s, x, z, n) == RankSum(s, x, z, j) && TieCount(s, x, n) == TieCount(s, x, j)
    decreases n - j
  {
    if j < n {
      RankSumTail(s, x, z, j, n - 1);
    }
  }

  /**
   * `wilcoxonRanks`: for each index with a non-zero displacement, the rank
   * of its magnitude among all magnitudes, ties averaged and shifted down by
   * the number of zero magnitudes, carrying the displacement's sign;
   * ranksAbs holds its magnitude. Indices with displacement 0 keep their
   * values.
   */
  method WilcoxonRanks(vectorZ: array<int>, vectorZabs: array<int>, ranks: array<real>, ranksAbs: array<real>)
    requires vectorZabs.Length == vectorZ.Length && ranks.Length == vectorZ.Length && ranksAbs.Length == vectorZ.Length
    requires ranks != ranksAbs
    modifies ranks, ranksAbs
    ensures SignedRanks(vectorZ[..], vectorZabs[..], ranks[..], ranksAbs[..], old(ranks[..]), old(ranksAbs[..]), vectorZ.Length)
  {
    var nitems := vectorZ.Length;
    ghost var z, zabs := vectorZ[..], vectorZabs[..];
    ghost var ranks0, ranksAbs0 := ranks[..], ranksAbs[..];
    var sorted := Sort(vectorZabs[..]);
    SortSorted(zabs);
    var zeros := CountZeros(sorted);
    SortCounts(zabs, 0);
    for i := 0 to nitems
      invariant vectorZ[..] == z && vectorZabs[..] == zabs
      invariant sorted == Sort(zabs) && zeros == CountLeq(zabs, 0)
      invariant SignedRanks(z, zabs, ranks[..], ranksAbs[..], ranks0, ranksAbs0, i)
    {
      var rank, count := TiedRank(sorted, vectorZabs[i], zeros);
      ghost var before, beforeAbs := ranks[..], ranksAbs[..];
      assert vectorZ[i] == z[i] && vectorZabs[i] == zabs[i];
      if vectorZ[i] != 0 {
        RankOfScore(sorted, zabs, i, zeros, rank, count);
        var mean := rank / count as real;
        var signed := WithSign(mean, vectorZ[i]);
        ranks[i] := signed;
        ranksAbs[i] := RealAbs(signed);
        assert ranks[..] == before[i := signed] && ranksAbs[..] == beforeAbs[i := RealAbs(signed)];
        SignedRanksWrite(z, zabs, before, beforeAbs, ranks0, ranksAbs0, i, mean, signed);
      } else {
        SignedRanksKeep(z, zabs, before, beforeAbs, ranks0, ranksAbs0, i);
      }
    }
  }

  /** The `zeros` loop of `wilcoxonRanks`: over the sorted magnitudes, the number of entries at or below 0. */
  method CountZeros(sorted: seq<int>) returns (zeros: nat)
    requires Sorted(sorted)
    ensures zeros == CountLeq(sorted, 0)
  {
    zeros := 0;
    while zeros < |sorted|
      invariant 0 <= zeros <= |sorted|
      invariant forall k :: 0 <= k < zeros ==> sorted[k] <= 0
    {
      if sorted[zeros] > 0 {
        break;
      }
      zeros := zeros + 1;
    }
    ZerosCounted(sorted, zeros);
  }

  /**
   * The inner loop of `wilcoxonRanks` for one score: over the sorted
   * magnitudes it sums the shifted 1-based positions equal to score and
   * counts them, stopping at the first larger entry.
   */
  method TiedRank(sorted: seq<int>, score: int, zeros: int) returns (rank: real, count: nat)
    requires Sorted(sorted)
    ensures rank == RankSum(sorted, score, zeros, |sorted|) && count == TieCount(sorted, score, |sorted|)
  {
    rank, count := 0.0, 0;
    var j := 0;
    while j < |sorted|
      invariant 0 <= j <= |sorted|
      invariant rank == RankSum(sorted, score, zeros, j) && count == TieCount(sorted, score, j)
    {
      if score == sorted[j] {
        rank := rank + ((j + 1) - zeros) as real;
        count := count + 1;
      } else if score < sorted[j] {
        RankSumStops(sorted, score, zeros, j);
        break;
      }
      j := j + 1;
    }
  }

  /**
   * The rank arrays once indices below n are done: each index with a
   * non-zero displacement holds its signed average rank and that rank's
   * magnitude, every other index its old values.
   */
  ghost predicate SignedRanks(z: seq<int>, zabs: seq<int>, ranks: seq<real>, ranksAbs: seq<real>,
                              ranks0: seq<real>, ranksAbs0: seq<real>, n: nat)
  {
    && |zabs| == |z| && |ranks| == |z| && |ranksAbs| == |z| && |ranks0| == |z| && |ranksAbs0| == |z| && n <= |z|
    && (forall k :: 0 <= k < n ==>
          if z[k] != 0 then
            && ranks[k] == WithSign(AverageRank(zabs, zabs[k], CountLeq(zabs, 0)), z[k])
            && ranksAbs[k] == RealAbs(ranks[k])
          else ranks[k] == ranks0[k] && ranksAbs[k] == ranksAbs0[k])
    && (forall k :: n <= k < |z| ==> ranks[k] == ranks0[k] && ranksAbs[k] == ranksAbs0[k])
  }

  /** A non-zero displacement at i: writing its signed rank extends the finished prefix by one. */
  lemma SignedRanksWrite(z: seq<int>, zabs: seq<int>, ranks: seq<real>, ranksAbs: seq<real>,
                         ranks0: seq<real>, ranksAbs0: seq<real>, i: nat, mean: real, r: real)
    requires SignedRanks(z, zabs, ranks, ranksAbs, ranks0, ranksAbs0, i) && i < |z| && z[i] != 0
    requires mean == AverageRank(zabs, zabs[i], CountLeq(zabs, 0)) && r == WithSign(mean, z[i])
    ensures SignedRanks(z, zabs, ranks[i := r], ranksAbs[i := RealAbs(r)], ranks0, ranksAbs0, i + 1)
  {
    var ranks', ranksAbs' := ranks[i := r], ranksAbs[i := RealAbs(r)];
    forall k | 0 <= k < i + 1
      ensures if z[k] != 0 then
                && ranks'[k] == WithSign(AverageRank(zabs, zabs[k], CountLeq(zabs, 0)), z[k])
                && ranksAbs'[k] == RealAbs(ranks'[k])
              else ranks'[k] == ranks0[k] && ranksAbs'[k] == ranksAbs0[k]
    {
      if k < i {
        assert ranks'[k] == ranks[k] && ranksAbs'[k] == ranksAbs[k];
      }
    }
  }

  /** A zero displacement at i: leaving both arrays alone extends the finished prefix by one. */
  lemma SignedRanksKeep(z: seq<int>, zabs: seq<int>, ranks: seq<real>, ranksAbs: seq<real>,
                        ranks0: seq<real>, ranksAbs0: seq<real>, i: nat)
    requires SignedRanks(z, zabs, ranks, ranksAbs, ranks0, ranksAbs0, i) && i < |z| && z[i] == 0
    ensures SignedRanks(z, zabs, ranks, ranksAbs, ranks0, ranksAbs0, i + 1)
  {
  }

  /** The `zeros` loop stops at the first positive sorted entry: it counts the entries at or below 0. */
  lemma ZerosCounted(sorted: seq<int>, zeros: nat)
    requires Sorted(sorted) && zeros <= |sorted|
    requires forall k :: 0 <= k < zeros ==> sorted[k] <= 0
    requires zeros < |sorted| ==> sorted[zeros] > 0
    ensures zeros == CountLeq(sorted, 0)
  {
    SortedCountLeq(sorted, 0);
    var c := CountLeq(sorted, 0);
    assert c < |sorted| ==> sorted[c] > 0;
    assert zeros < |sorted| ==> sorted[zeros] > 0;
  }

  /** The rank the inner loop builds for index i, divided by its count, is the average rank over the unsorted magnitudes. */
  lemma RankOfScore(sorted: seq<int>, zabs: seq<int>, i: nat, zeros: int, rank: real, count: nat)
    requires sorted == Sort(zabs) && i < |zabs|
    requires rank == RankSum(sorted, zabs[i], zeros, |sorted|) && count == TieCount(sorted, zabs[i], |sorted|)
    ensures count > 0 && rank / count as real == AverageRank(zabs, zabs[i], zeros)
  {
    SortSorted(zabs);
    SortPermutes(zabs);
    assert zabs[i] in multiset(zabs);
    assert zabs[i] in sorted;
    RankQuotient(sorted, zabs[i], zeros);
    SortCounts(zabs, zabs[i]);
  }

  /**
   * A positive magnitude that occurs among the magnitudes ranks at least 1
   * ("better be at least 1"): every zero sorts strictly before it.
   */
  lemma RankAtLeastOne(s: seq<int>, x: int)
    requires x in s && x > 0
    ensures AverageRank(s, x, CountLeq(s, 0)) >= 1.0
  {
    CountLeqBelow(s, 0, x);
    CountLessLeq(s, x);
  }

  /**
   * Where vectorZabs holds the magnitudes of vectorZ, the rank written for a
   * non-zero displacement has the displacement's sign, magnitude at least 1,
   * and ranksAbs is the unsigned average rank.
   */
  lemma SignedRank(z: seq<int>, zabs: seq<int>, i: nat)
    requires |zabs| == |z| && i < |z| && z[i] != 0
    requires forall k :: 0 <= k < |z| ==> zabs[k] == Abs(z[k])
    ensures var a := AverageRank(zabs, zabs[i], CountLeq(zabs, 0));
      var r := WithSign(a, z[i]);
      && (r > 0.0 <==> z[i] > 0) && (r < 0.0 <==> z[i] < 0)
      && RealAbs(r) == a && a >= 1.0
  {
    assert zabs[i] in zabs;
    RankAtLeastOne(zabs, zabs[i]);
  }

  /**
   * With vectorZabs holding the magnitudes of vectorZ, `zeros` (the entries
   * of vectorZabs at or below 0) is the number of zero displacements.
   */
  lemma {:induction false} ZerosAreZeroDisplacements(z: seq<int>, zabs: seq<int>)
    requires |zabs| == |z|
    requires forall k :: 0 <= k < |z| ==> zabs[k] == Abs(z[k])
    ensures CountLeq(zabs, 0) == multiset(z)[0]
  {
    if z != [] {
      ZerosAreZeroDisplacements(z[1..], zabs[1..]);
      assert z == [z[0]] + z[1..];
    }
  }

  /**
   * After `wilcoxonRanks`, given magnitudes in vectorZabs, each written rank
   * has the displacement's sign, ranksAbs holds its magnitude, and that
   * magnitude is at least 1.
   */
  lemma RanksSigned(z: seq<int>, zabs: seq<int>, ranks: seq<real>, ranksAbs: seq<real>,
                    ranks0: seq<real>, ranksAbs0: seq<real>)
    requires SignedRanks(z, zabs, ranks, ranksAbs, ranks0, ranksAbs0, |z|)
    requires forall k :: 0 <= k < |z| ==> zabs[k] == Abs(z[k])
    ensures forall k :: 0 <= k < |z| && z[k] != 0 ==>
      && (ranks[k] > 0.0 <==> z[k] > 0) && (ranks[k] < 0.0 <==> z[k] < 0)
      && ranksAbs[k] == RealAbs(ranks[k]) && ranksAbs[k] >= 1.0
  {
    forall k | 0 <= k < |z| && z[k] != 0
      ensures (ranks[k] > 0.0 <==> z[k] > 0) && (ranks[k] < 0.0 <==> z[k] < 0)
      ensures ranksAbs[k] == RealAbs(ranks[k]) && ranksAbs[k] >= 1.0
    {
      SignedRank(z, zabs, k);
    }
  }

  /**
   * After `wilcoxonRanks`, given magnitudes in vectorZabs, tied magnitudes
   * get the same unsigned rank: the mean of their sorted positions, less
   * the number of zeros.
   */
  lemma TiedRanksShared(z: seq<int>, zabs: seq<int>, ranks: seq<real>, ranksAbs: seq<real>,
                        ranks0: seq<real>, ranksAbs0: seq<real>)
    requires SignedRanks(z, zabs, ranks, ranksAbs, ranks0, ranksAbs0, |z|)
    requires forall k :: 0 <= k < |z| ==> zabs[k] == Abs(z[k])
    ensures forall k, l :: 0 <= k < |z| && 0 <= l < |z| && z[k] != 0 && z[l] != 0 && zabs[k] == zabs[l] ==>
      ranksAbs[k] == ranksAbs[l] == AverageRank(zabs, zabs[k], CountLeq(zabs, 0))
  {
    forall k | 0 <= k < |z| && z[k] != 0
      ensures ranksAbs[k] == AverageRank(zabs, zabs[k], CountLeq(zabs, 0))
    {
      SignedRank(z, zabs, k);
    }
  }

  /**
   * Where vectorZabs starts as the magnitudes of vectorZ (the caller passes
   * two fresh, all-zero arrays), `getVectorZ` keeps it so: afterwards
   * vectorZabs[i] == |vectorZ[i]| at every index.
   */
  lemma MagnitudesKept(z: seq<int>, zabs: seq<int>, z0: seq<int>, zabs0: seq<int>, matches: seq<Option<int>>)
    requires Displacements(z, zabs, z0, zabs0, matches)
    requires forall k :: 0 <= k < |z0| ==> zabs0[k] == Abs(z0[k])
    ensures forall k :: 0 <= k < |z| ==> zabs[k] == Abs(z[k])
  {
  }

  // ---------------------------------------------------------------- getMeanWplus, getMeanWminus

  /** A Java `double` quotient: a real value, or NaN, which is what 0.0 / 0 gives. */
  datatype Quotient = Value(v: real) | NotANumber

  /** The sum of the positive ranks, accumulated in index order. */
  function PositiveSum(s: seq<real>): (t: real)
    ensures t >= 0.0
  {
    if s == [] then 0.0
    else PositiveSum(s[..|s| - 1]) + (if s[|s| - 1] > 0.0 then s[|s| - 1] else 0.0)
  }

  /** The sum of the magnitudes of the negative ranks, accumulated in index order. */
  function NegativeSum(s: seq<real>): (t: real)
    ensures t >= 0.0
  {
    if s == [] then 0.0
    else NegativeSum(s[..|s| - 1]) + (if s[|s| - 1] < 0.0 then -s[|s| - 1] else 0.0)
  }

  /** The plain sum of the ranks. */
  function Sum(s: seq<real>): (sum: real)
  {
    if s == [] then 0.0 else Sum(s[..|s| - 1]) + s[|s| - 1]
  }

  /** The sum of the ranks' magnitudes. */
  function MagnitudeSum(s: seq<real>): (sum: real)
  {
    if s == [] then 0.0 else MagnitudeSum(s[..|s| - 1]) + RealAbs(s[|s| - 1])
  }

  /**
   * The two one-sided sums split the ranks: their difference is the plain
   * sum and their total the sum of magnitudes.
   */
  lemma {:induction false} SignedSumsSplit(s: seq<real>)
    ensures PositiveSum(s) - NegativeSum(s) == Sum(s)
    ensures PositiveSum(s) + NegativeSum(s) == MagnitudeSum(s)
  {
    if s != [] {
      SignedSumsSplit(s[..|s| - 1]);
    }
  }

  /** `sum / nitems` in Java `double`s, where the sum of no ranks is 0.0 and 0.0 / 0 is NaN. */
  function MeanOf(sum: real, n: nat): (q: Quotient)
    ensures n == 0 <==> q == NotANumber
    ensures q.Value? && sum >= 0.0 ==> q.v >= 0.0
    ensures q.Value? ==> q.v * n as real == sum
  {
    if n == 0 then NotANumber else Value(sum / n as real)
  }

  /** `getMeanWplus`: the sum of the positive ranks over the number of ranks; NaN for no ranks. */
  method GetMeanWplus(ranks: array<real>) returns (mean: Quotient)
    ensures mean == MeanOf(PositiveSum(ranks[..]), ranks.Length)
    ensures ranks.Length > 0 ==> mean.Value? && mean.v >= 0.0
  {
    var nitems := ranks.Length;
    var sum := 0.0;
    for i := 0 to nitems
      invariant sum == PositiveSum(ranks[..i])
    {
      assert ranks[..i + 1][..i] == ranks[..i];
      if ranks[i] > 0.0 {
        sum := sum + ranks[i];
      }
    }
    assert ranks[..nitems] == ranks[..];
    if nitems == 0 {
      mean := NotANumber;
    } else {
      mean := Value(sum / nitems as real);
    }
  }

  /** `getMeanWminus`: the sum of the negative ranks' magnitudes over the number of ranks; NaN for no ranks. */
  method GetMeanWminus(ranks: array<real>) returns (mean: Quotient)
    ensures mean == MeanOf(NegativeSum(ranks[..]), ranks.Length)
    ensures ranks.Length > 0 ==> mean.Value? && mean.v >= 0.0
  {
    var nitems := ranks.Length;
    var sum := 0.0;
    for i := 0 to nitems
      invariant sum == NegativeSum(ranks[..i])
    {
      assert ranks[..i + 1][..i] == ranks[..i];
      if ranks[i] < 0.0 {
        sum := sum + -ranks[i];
      }
    }
    assert ranks[..nitems] == ranks[..];
    if nitems == 0 {
      mean := NotANumber;
    } else {
      mean := Value(sum / nitems as real);
    }
  }

  // ---------------------------------------------------------------- getPrefsArray

  /** `RecommendedItem`: an item and the value the recommender estimated for it. */
  datatype RecommendedItem = RecommendedItem(itemID: int, value: real)

  /**
   * The array the fill loop of `getPrefsArray` leaves behind: slot k holds a
   * preference of the user for the k-th recommended item while there are
   * recommendations, and stays null past the end of a short list.
   */
  function Fill(recs: seq<RecommendedItem>, userID: int, n: nat): (prefs: seq<Option<Preference>>)
  {
    seq(n, k requires 0 <= k < n =>
      if k < |recs| then Some(Preference(userID, recs[k].itemID, recs[k].value)) else None)
  }

  /** A list at least as long as the array fills every slot, with the list's items in order. */
  lemma FillComplete(recs: seq<RecommendedItem>, userID: int, n: nat)
    requires n <= |recs|
    ensures Filled(Fill(recs, userID, n))
    ensures forall k :: 0 <= k < n ==> ItemsOf(Fill(recs, userID, n))[k] == recs[k].itemID
  {
  }

  /**
   * The fill loop of `getPrefsArray` over an array of nulls (both callers
   * pass a fresh array): slot k gets the k-th recommendation. A list shorter
   * than the array makes `recs.get` throw once it runs out, leaving the
   * remaining slots null.
   */
  method FillPrefs(recs: seq<RecommendedItem>, userID: int, prefs: array<Option<Preference>>) returns (outcome: Outcome)
    requires forall k :: 0 <= k < prefs.Length ==> prefs[k].None?
    modifies prefs
    ensures outcome == if prefs.Length <= |recs| then Pass else Fail(IndexOutOfBounds)
    ensures prefs[..] == Fill(recs, userID, prefs.Length)
  {
    var nprefs := prefs.Length;
    var found := 0;
    while found < nprefs
      invariant 0 <= found <= nprefs && found <= |recs|
      invariant forall k :: 0 <= k < found ==> prefs[k] == Some(Preference(userID, recs[k].itemID, recs[k].value))
      invariant forall k :: found <= k < nprefs ==> prefs[k].None?
      decreases nprefs - found
    {
      if prefs[found] == None {
        if found >= |recs| {
          assert prefs[..] == Fill(recs, userID, nprefs);
          return Fail(IndexOutOfBounds);
        }
        prefs[found] := Some(Preference(userID, recs[found].itemID, recs[found].value));
        found := found + 1;
      }
    }
    assert prefs[..] == Fill(recs, userID, nprefs);
    outcome := Pass;
  }
}

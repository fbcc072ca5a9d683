/** Leaf selection in plain terms: which leaves are chosen and which error is returned, for all lists of leaves, not
    only for those on which the search is complete (crates/spark/src/tree/select_helper.rs). */
module SelectionTerms {
  import opened Prelude
  import opened PowersOfTwo
  import opened LeafSelection

  /* ---------- the order the greedy pass works in ---------- */

  function WithKey<T>(s: seq<T>, key: T -> int, k: int): seq<T> {
    if s == [] then [] else (if key(s[0]) == k then [s[0]] else []) + WithKey(s[1..], key, k)
  }

  lemma {:induction false} InsertIsStable<T>(x: T, s: seq<T>, key: T -> int, k: int)
    ensures WithKey(InsertByKey(x, s, key), key, k) == WithKey([x] + s, key, k)
  {
    if s == [] {
      assert [x] + s == [x];
    } else {
      assert ([x] + s)[1..] == s;
      if key(x) > key(s[0]) {
        var r := InsertByKey(x, s[1..], key);
        InsertIsStable(x, s[1..], key, k);
        assert ([s[0]] + r)[1..] == r && ([x] + s[1..])[1..] == s[1..];
      }
    }
  }

  /** The sort keeps the order of elements with equal keys. */
  lemma {:induction false} SortIsStable<T>(s: seq<T>, key: T -> int, k: int)
    ensures WithKey(SortByKey(s, key), key, k) == WithKey(s, key, k)
  {
    if s != [] {
      var rest := SortByKey(s[1..], key);
      SortIsStable(s[1..], key, k);
      InsertIsStable(s[0], rest, key, k);
      assert ([s[0]] + rest)[1..] == rest;
    }
  }

  /* ---------- one greedy pass ---------- */

  /** Each leaf is taken exactly if something is still missing and the leaf is not worth more than that. */
  predicate TakesWhatFits(leaves: seq<TreeNode>, t: nat, chosen: seq<bool>) {
    && |chosen| == |leaves|
    && forall i :: 0 <= i < |leaves| ==>
         (chosen[i] <==> Picked(leaves[..i], chosen[..i]) < t
                         && Picked(leaves[..i], chosen[..i]) + leaves[i].value <= t)
  }

  function Taken(leaves: seq<TreeNode>, chosen: seq<bool>): seq<TreeNode>
    requires |chosen| == |leaves|
  {
    if leaves == [] then [] else (if chosen[0] then [leaves[0]] else []) + Taken(leaves[1..], chosen[1..])
  }

  lemma PickedPrefix(leaves: seq<TreeNode>, chosen: seq<bool>, i: nat)
    requires |chosen| == |leaves| && 0 < i <= |leaves|
    ensures Picked(leaves[..i], chosen[..i])
         == (if chosen[0] then leaves[0].value else 0) + Picked(leaves[1..][..i - 1], chosen[1..][..i - 1])
  {
    assert leaves[..i][1..] == leaves[1..][..i - 1] && chosen[..i][1..] == chosen[1..][..i - 1];
  }

  lemma FitsCons(leaf: TreeNode, rest: seq<TreeNode>, t: nat, c: bool, more: seq<bool>)
    requires c <==> 0 < t && leaf.value <= t
    requires TakesWhatFits(rest, if c then t - leaf.value else t, more)
    ensures TakesWhatFits([leaf] + rest, t, [c] + more)
  {
    var leaves, chosen := [leaf] + rest, [c] + more;
    assert leaves[1..] == rest && chosen[1..] == more;
    forall i | 0 <= i < |leaves|
      ensures chosen[i] <==> Picked(leaves[..i], chosen[..i]) < t
                             && Picked(leaves[..i], chosen[..i]) + leaves[i].value <= t
    {
      if i > 0 {
        PickedPrefix(leaves, chosen, i);
        assert more[i - 1] == chosen[i] && rest[i - 1] == leaves[i];
      }
    }
  }

  function NoFlags(n: nat): (r: seq<bool>)
    ensures |r| == n && forall i :: 0 <= i < n ==> !r[i]
  {
    if n == 0 then [] else [false] + NoFlags(n - 1)
  }

  lemma {:induction false} NothingMore(leaves: seq<TreeNode>)
    ensures TakesWhatFits(leaves, 0, NoFlags(|leaves|))
    ensures Picked(leaves, NoFlags(|leaves|)) == 0 && Taken(leaves, NoFlags(|leaves|)) == []
  {
    if leaves != [] {
      NothingMore(leaves[1..]);
      FitsCons(leaves[0], leaves[1..], 0, false, NoFlags(|leaves| - 1));
      assert [leaves[0]] + leaves[1..] == leaves;
      assert NoFlags(|leaves|)[1..] == NoFlags(|leaves| - 1);
    }
  }

  /** r is what taking each leaf that fits gives: the leaves taken, if they make the amount. */
  predicate IsPass(leaves: seq<TreeNode>, t: nat, chosen: seq<bool>, r: Option<seq<TreeNode>>) {
    && TakesWhatFits(leaves, t, chosen)
    && r == if Picked(leaves, chosen) == t then Some(Taken(leaves, chosen)) else None
  }

  lemma ChosenCons(leaf: TreeNode, rest: seq<TreeNode>, c: bool, more: seq<bool>)
    requires |more| == |rest|
    ensures Picked([leaf] + rest, [c] + more) == (if c then leaf.value else 0) + Picked(rest, more)
    ensures Taken([leaf] + rest, [c] + more) == (if c then [leaf] else []) + Taken(rest, more)
  {
    assert ([leaf] + rest)[1..] == rest && ([c] + more)[1..] == more;
  }

  lemma LastLeaf(leaf: TreeNode, rest: seq<TreeNode>, t: nat)
    requires t > 0 && leaf.value == t
    ensures IsPass([leaf] + rest, t, [true] + NoFlags(|rest|), Some([leaf]))
  {
    NothingMore(rest);
    FitsCons(leaf, rest, t, true, NoFlags(|rest|));
    ChosenCons(leaf, rest, true, NoFlags(|rest|));
    assert [leaf] + [] == [leaf];
  }

  lemma NextLeaf(leaf: TreeNode, rest: seq<TreeNode>, t: nat, c: bool, more: seq<bool>, r: Option<seq<TreeNode>>)
    requires t > 0 && leaf.value != t && (c <==> leaf.value < t)
    requires IsPass(rest, if c then t - leaf.value else t, more, r)
    ensures IsPass([leaf] + rest, t, [c] + more, if c && r.Some? then Some([leaf] + r.value) else r)
  {
    FitsCons(leaf, rest, t, c, more);
    ChosenCons(leaf, rest, c, more);
    assert [] + Taken(rest, more) == Taken(rest, more);
  }

  lemma GreedyCons(leaf: TreeNode, rest: seq<TreeNode>, t: nat)
    requires t > 0
    ensures leaf.value == t ==> Greedy([leaf] + rest, t) == Some([leaf])
    ensures leaf.value > t ==> Greedy([leaf] + rest, t) == Greedy(rest, t)
    ensures leaf.value < t ==>
              var more := Greedy(rest, t - leaf.value);
              Greedy([leaf] + rest, t) == if more.Some? then Some([leaf] + more.value) else None
  {
    assert ([leaf] + rest)[1..] == rest;
  }

  /** The pass takes each leaf that fits into what is missing, in the order of the list; it succeeds exactly when that
      makes the amount, with those leaves. */
  lemma {:induction false} GreedyTakesWhatFits(leaves: seq<TreeNode>, t: nat)
    requires t > 0
    ensures exists chosen: seq<bool> :: IsPass(leaves, t, chosen, Greedy(leaves, t))
    decreases |leaves|, 1
  {
    if leaves == [] {
      assert IsPass(leaves, t, [], Greedy(leaves, t));
    } else {
      OneMoreLeaf(leaves[0], leaves[1..], t);
      assert leaves == [leaves[0]] + leaves[1..];
    }
  }

  lemma {:induction false} OneMoreLeaf(leaf: TreeNode, rest: seq<TreeNode>, t: nat)
    requires t > 0
    ensures exists chosen: seq<bool> :: IsPass([leaf] + rest, t, chosen, Greedy([leaf] + rest, t))
    decreases |rest| + 1, 0
  {
    GreedyCons(leaf, rest, t);
    if leaf.value == t {
      LastLeaf(leaf, rest, t);
    } else {
      var c := leaf.value < t;
      var left := if c then t - leaf.value else t;
      GreedyTakesWhatFits(rest, left);
      var more: seq<bool> :| IsPass(rest, left, more, Greedy(rest, left));
      NextLeaf(leaf, rest, t, c, more, Greedy(rest, left));
    }
  }

  /* ---------- both passes, and the single match before them ---------- */

  /** The second pass sees every power-of-two leaf as often as it is there, and nothing else. */
  lemma {:induction false} PowersAre(leaves: seq<TreeNode>, n: TreeNode)
    ensures multiset(PowerOfTwoLeaves(leaves))[n] == if IsPowerOfTwo(n.value) then multiset(leaves)[n] else 0
  {
    if leaves != [] {
      assert leaves == [leaves[0]] + leaves[1..];
      PowersAre(leaves[1..], n);
    }
  }

  predicate FirstWorth(leaves: seq<TreeNode>, t: nat, k: nat) {
    k < |leaves| && leaves[k].value == t && forall j :: 0 <= j < k ==> leaves[j].value != t
  }

  lemma {:induction false} SingleIsFirst(leaves: seq<TreeNode>, t: nat, k: nat)
    requires FirstWorth(leaves, t, k)
    ensures FindExactSingleMatch(leaves, t) == Some(leaves[k])
  {
    if k > 0 {
      assert FirstWorth(leaves[1..], t, k - 1);
      SingleIsFirst(leaves[1..], t, k - 1);
    }
  }

  lemma SubBagOfOne(n: TreeNode, leaves: seq<TreeNode>)
    requires n in leaves
    ensures n.value <= Total(leaves)
  {
    assert n in multiset(leaves) && multiset([n]) <= multiset(leaves);
    SubBagTotal([n], leaves);
    assert Total([n]) == n.value;
  }

  /** The errors of an exact amount; "none found" is not one of them. */
  lemma ExactErrors(leaves: seq<TreeNode>, t: nat)
    ensures SelectByExactAmount(leaves, t) == Err(InvalidAmount) <==> t == 0
    ensures SelectByExactAmount(leaves, t) == Err(InsufficientFunds) <==> 0 < t && t > Total(leaves)
    ensures SelectByExactAmount(leaves, t).Ok? <==> 0 < t <= Total(leaves)
  {
  }

  /** The first leaf of that very value is taken before anything else is tried. */
  lemma SingleWins(leaves: seq<TreeNode>, t: nat, k: nat)
    requires t > 0 && FirstWorth(leaves, t, k)
    ensures SelectByExactAmount(leaves, t) == Ok(Some([leaves[k]]))
  {
    SingleIsFirst(leaves, t, k);
    SubBagOfOne(leaves[k], leaves);
  }

  /** Without such a leaf the first pass decides, and only when it fails the second. Returning early when there are
      only powers of two loses nothing. */
  lemma TwoPasses(leaves: seq<TreeNode>, t: nat)
    requires 0 < t <= Total(leaves) && FindExactSingleMatch(leaves, t).None?
    ensures var all := Greedy(SortByKey(leaves, DescendingValue), t);
            var powers := Greedy(SortByKey(PowerOfTwoLeaves(leaves), DescendingValue), t);
            SelectByExactAmount(leaves, t) == Ok(if all.Some? then all else powers)
  {
  }

  /* ---------- whole requests ---------- */

  lemma {:induction false} TotalPerm(a: seq<TreeNode>, b: seq<TreeNode>)
    requires multiset(a) == multiset(b)
    ensures Total(a) == Total(b)
  {
    SubBagTotal(a, b);
    SubBagTotal(b, a);
  }

  /** What is left is worth the rest. */
  lemma LeftOver(leaves: seq<TreeNode>, chosen: seq<TreeNode>)
    requires DistinctIds(leaves) && multiset(chosen) <= multiset(leaves)
    ensures Total(Without(leaves, Ids(chosen))) == Total(leaves) - Total(chosen)
  {
    var rest := Without(leaves, Ids(chosen));
    forall n ensures multiset(rest + chosen)[n] == multiset(leaves)[n] {
      OnceEach(leaves, chosen, n);
    }
    TotalPerm(rest + chosen, leaves);
    TotalAppend(rest, chosen);
  }

  lemma OnceEach(leaves: seq<TreeNode>, chosen: seq<TreeNode>, n: TreeNode)
    requires DistinctIds(leaves) && multiset(chosen) <= multiset(leaves)
    ensures multiset(Without(leaves, Ids(chosen)))[n] + multiset(chosen)[n] == multiset(leaves)[n]
  {
    var rest := Without(leaves, Ids(chosen));
    DistinctSubBag(chosen, leaves);
    WithoutDistinct(leaves, Ids(chosen));
    WithoutMembers(leaves, Ids(chosen));
    CountOnce(leaves, n);
    CountOnce(chosen, n);
    CountOnce(rest, n);
    assert n in leaves <==> n in multiset(leaves);
    assert n in chosen <==> n in multiset(chosen);
    assert n in rest <==> n in multiset(rest);
    if n in leaves && n.id in Ids(chosen) {
      var m :| m in chosen && m.id == n.id;
      OneLeafPerId(leaves, n, m);
    }
  }

  /** A request for `a` and `fee` when the amount is selected. */
  lemma FeeComesNext(leaves: seq<TreeNode>, a: nat, first: seq<TreeNode>, fee: nat)
    requires SelectByExactAmount(leaves, a) == Ok(Some(first))
    ensures var r := SelectByTargetAmounts(leaves, Some(AmountAndFee(a, Some(fee))));
            var second := SelectByExactAmount(Without(leaves, Ids(first)), fee);
            && (second.Err? ==> r == Err(second.error))
            && (second == Ok(None) ==> r == Err(UnselectableAmount))
            && (second.Ok? && second.value.Some? ==> r == Ok(TargetLeaves(first, second.value)))
  {
  }

  lemma AmountComesFirst(leaves: seq<TreeNode>, a: nat, fee: Option<nat>)
    ensures var r, first := SelectByTargetAmounts(leaves, Some(AmountAndFee(a, fee))), SelectByExactAmount(leaves, a);
            && (first.Err? ==> r == Err(first.error))
            && (first == Ok(None) ==> r == Err(UnselectableAmount))
            && (first.Ok? && first.value.Some? && fee.None? ==> r == Ok(TargetLeaves(first.value.value, None)))
  {
  }

  /** Which error a request with a fee gets when the amount is selected. */
  lemma FeeErrors(leaves: seq<TreeNode>, a: nat, first: seq<TreeNode>, fee: nat)
    requires DistinctIds(leaves) && SelectByExactAmount(leaves, a) == Ok(Some(first))
    ensures var r := SelectByTargetAmounts(leaves, Some(AmountAndFee(a, Some(fee))));
            && (r == Err(InvalidAmount) <==> fee == 0)
            && (r == Err(InsufficientFunds) <==> fee > 0 && a + fee > Total(leaves))
            && (r.Err? && fee > 0 && a + fee <= Total(leaves) ==> r.error == UnselectableAmount)
  {
    LeftOver(leaves, first);
    FeeComesNext(leaves, a, first, fee);
    ExactErrors(Without(leaves, Ids(first)), fee);
  }

  /** Which error a refused amount, with or without a fee, gets. `alone` says that the amount by itself can be had. */
  lemma AmountAndFeeErrors(leaves: seq<TreeNode>, a: nat, fee: Option<nat>)
    requires DistinctIds(leaves)
    ensures var r := SelectByTargetAmounts(leaves, Some(AmountAndFee(a, fee)));
            var alone := SelectByTargetAmounts(leaves, Some(AmountAndFee(a, None))).Ok?;
            && (r == Err(InvalidAmount) <==> a == 0 || (alone && fee == Some(0)))
            && (r == Err(InsufficientFunds) <==>
                  || (0 < a && a > Total(leaves))
                  || (alone && fee.Some? && fee.value > 0 && a + fee.value > Total(leaves)))
            && (r.Err? ==> r.error == InvalidAmount || r.error == InsufficientFunds || r.error == UnselectableAmount)
  {
    ExactErrors(leaves, a);
    AmountComesFirst(leaves, a, fee);
    AmountComesFirst(leaves, a, None);
    var first := SelectByExactAmount(leaves, a);
    if first.Ok? && first.value.Some? && fee.Some? {
      FeeErrors(leaves, a, first.value.value, fee.value);
    }
  }

  /** `a` stands before `b` in the list. */
  predicate Before(leaves: seq<TreeNode>, a: TreeNode, b: TreeNode) {
    exists i, j :: 0 <= i < j < |leaves| && leaves[i] == a && leaves[j] == b
  }

  lemma {:induction false} WithoutKeepsOrder(leaves: seq<TreeNode>, ids: set<LeafId>, a: TreeNode, b: TreeNode)
    requires Before(leaves, a, b) && a.id !in ids && b.id !in ids
    ensures Before(Without(leaves, ids), a, b)
  {
    var i, j :| 0 <= i < j < |leaves| && leaves[i] == a && leaves[j] == b;
    var rest := Without(leaves[1..], ids);
    if i > 0 {
      assert leaves[1..][i - 1] == a && leaves[1..][j - 1] == b;
      WithoutKeepsOrder(leaves[1..], ids, a, b);
      var k, l :| 0 <= k < l < |rest| && rest[k] == a && rest[l] == b;
      if leaves[0].id !in ids {
        var all := [leaves[0]] + rest;
        assert all[k + 1] == a && all[l + 1] == b;
      }
    } else {
      assert leaves[1..][j - 1] == b;
      WithoutMembers(leaves[1..], ids);
      var l :| 0 <= l < |rest| && rest[l] == b;
      var all := [a] + rest;
      assert all[0] == a && all[l + 1] == b;
    }
  }

  lemma {:induction false} SingleHasNoneBefore(leaves: seq<TreeNode>, t: nat, n: TreeNode)
    requires DistinctIds(leaves) && FindExactSingleMatch(leaves, t).Some? && n.value == t
    ensures !Before(leaves, n, FindExactSingleMatch(leaves, t).value)
  {
    var found := FindExactSingleMatch(leaves, t).value;
    if Before(leaves, n, found) {
      var i, j :| 0 <= i < j < |leaves| && leaves[i] == n && leaves[j] == found;
      if leaves[0].value != t {
        assert leaves[1..][i - 1] == n && leaves[1..][j - 1] == found;
        SingleHasNoneBefore(leaves[1..], t, n);
      }
    }
  }

  /** No leaf of the wanted value stands before a chosen one unless it was chosen earlier. */
  ghost predicate TakesFirst(leaves: seq<TreeNode>, wanted: seq<nat>, chosen: seq<TreeNode>) {
    && |chosen| == |wanted|
    && forall i: nat, n: TreeNode :: i < |wanted| && n.value == wanted[i] && Before(leaves, n, chosen[i]) ==>
         n in chosen[..i]
  }

  /** Each denomination gets the first leaf of its value that none before it got; the only error is that there is
      none. */
  lemma {:induction false} DenominationsTakeTheFirst(leaves: seq<TreeNode>, wanted: seq<nat>)
    requires DistinctIds(leaves)
    ensures var r := Denominations(leaves, wanted);
            && (r.Err? ==> r.error == UnselectableAmount)
            && (r.Ok? ==> TakesFirst(leaves, wanted, r.value))
    decreases wanted
  {
    if wanted != [] {
      var found := FindExactSingleMatch(leaves, wanted[0]);
      if found.Some? {
        var smaller := Without(leaves, {found.value.id});
        WithoutDistinct(leaves, {found.value.id});
        DenominationsTakeTheFirst(smaller, wanted[1..]);
        var more := Denominations(smaller, wanted[1..]);
        if more.Ok? {
          AreLeaves(smaller, wanted[1..]);
          OneMoreDenomination(leaves, wanted, found.value, more.value);
        }
      }
    }
  }

  lemma AreLeaves(leaves: seq<TreeNode>, wanted: seq<nat>)
    requires DistinctIds(leaves) && Denominations(leaves, wanted).Ok?
    ensures forall n :: n in Denominations(leaves, wanted).value ==> n in leaves
  {
    DenominationsExact(leaves, wanted);
    DistinctSubBag(Denominations(leaves, wanted).value, leaves);
  }

  lemma OneMoreDenomination(leaves: seq<TreeNode>, wanted: seq<nat>, found: TreeNode, more: seq<TreeNode>)
    requires DistinctIds(leaves) && wanted != [] && FindExactSingleMatch(leaves, wanted[0]) == Some(found)
    requires TakesFirst(Without(leaves, {found.id}), wanted[1..], more)
    requires forall n :: n in more ==> n in Without(leaves, {found.id})
    ensures TakesFirst(leaves, wanted, [found] + more)
  {
    var chosen := [found] + more;
    forall i: nat, n: TreeNode | i < |wanted| && n.value == wanted[i] && Before(leaves, n, chosen[i])
      ensures n in chosen[..i]
    {
      if i == 0 {
        SingleHasNoneBefore(leaves, wanted[0], n);
      } else {
        LaterDenomination(leaves, wanted, found, more, i, n);
      }
    }
  }

  lemma LaterDenomination(leaves: seq<TreeNode>, wanted: seq<nat>, found: TreeNode, more: seq<TreeNode>, i: nat,
                          n: TreeNode)
    requires DistinctIds(leaves) && found in leaves && |more| == |wanted| - 1 && 0 < i < |wanted|
    requires more[i - 1] in Without(leaves, {found.id})
    requires n.value == wanted[i] && Before(leaves, n, more[i - 1])
    requires TakesFirst(Without(leaves, {found.id}), wanted[1..], more)
    ensures n in ([found] + more)[..i]
  {
    var last := more[i - 1];
    WithoutMembers(leaves, {found.id});
    assert ([found] + more)[..i] == [found] + more[..i - 1];
    if n.id == found.id {
      OneLeafPerId(leaves, n, found);
    } else {
      WithoutKeepsOrder(leaves, {found.id}, n, last);
      assert wanted[1..][i - 1] == wanted[i];
    }
  }

  lemma OneLeafPerId(leaves: seq<TreeNode>, a: TreeNode, b: TreeNode)
    requires DistinctIds(leaves) && a in leaves && b in leaves && a.id == b.id
    ensures a == b
  {
    var i :| 0 <= i < |leaves| && leaves[i] == a;
    var j :| 0 <= j < |leaves| && leaves[j] == b;
  }

  /** A minimum amount: which error, else the leaves up to the first that completes it. */
  lemma MinimumExactly(leaves: seq<TreeNode>, t: nat)
    ensures var r := MinimumAmount(leaves, t);
            && (t == 0 ==> r == Err(InvalidAmount))
            && (0 < t && t > Total(leaves) ==> r == Err(InsufficientFunds))
            && (forall k :: 0 < k <= |leaves| && Total(leaves[..k - 1]) < t <= Total(leaves[..k]) ==>
                  r == Ok(Some(leaves[..k])))
  {
    forall k | 0 < k <= |leaves| && Total(leaves[..k - 1]) < t <= Total(leaves[..k])
      ensures MinimumAmount(leaves, t) == Ok(Some(leaves[..k]))
    {
      assert leaves == leaves[..k] + leaves[k..];
      TotalAppend(leaves[..k], leaves[k..]);
      var p := ShortestPrefix(leaves, t);
      if p < k {
        assert leaves[..k - 1] == leaves[..p] + leaves[p..k - 1];
        TotalAppend(leaves[..p], leaves[p..k - 1]);
      }
    }
  }
}

/** For which leaf values does the exact selection never miss a subset? Exactly for those that divide each other
    (crates/spark/src/tree/select_helper.rs). */
module SelectionCompleteness {
  import opened Prelude
  import opened PowersOfTwo
  import opened LeafSelection

  predicate ValuesIn(leaves: seq<TreeNode>, values: iset<nat>) {
    forall n :: n in leaves ==> n.value in values
  }

  /** Of two positive values, the smaller divides the larger. */
  ghost predicate DividingValues(values: iset<nat>) {
    forall a, b :: a in values && b in values && 0 < a <= b ==> Multiple(b, a)
  }

  /** Whatever leaves have these values, the two passes find every amount that some subset makes. */
  ghost predicate SearchNeverMisses(values: iset<nat>) {
    forall leaves: seq<TreeNode>, t: nat ::
      DistinctIds(leaves) && ValuesIn(leaves, values) && SomeSubsetSums(leaves, t) ==>
        FindExactMultipleMatch(leaves, t).Some?
  }

  /** What is asked for can be made: the amount by a subset, or amount and fee by two disjoint ones. */
  predicate Makeable(leaves: seq<TreeNode>, amount: nat, fee: Option<nat>) {
    amount > 0 && if fee.None? then SomeSubsetSums(leaves, amount)
                  else fee.value > 0 && DisjointSubsetsSum(leaves, amount, fee.value)
  }

  /** The same for the selection of target amounts, single matches included, with or without a fee. */
  ghost predicate TargetsNeverMissed(values: iset<nat>) {
    forall leaves: seq<TreeNode>, amount: nat, fee: Option<nat> ::
      DistinctIds(leaves) && ValuesIn(leaves, values) && Makeable(leaves, amount, fee) ==>
        SelectByTargetAmounts(leaves, Some(AmountAndFee(amount, fee))).Ok?
  }

  lemma DividingValuesMakeChains(leaves: seq<TreeNode>, values: iset<nat>)
    requires ValuesIn(leaves, values) && DividingValues(values)
    ensures DivisibilityChain(leaves)
  {
  }

  /* ---------- a list on which both passes get stuck ---------- */

  /** A name of length i. */
  function Name(i: nat): (s: LeafId)
    ensures |s| == i
  {
    seq(i, _ => 'x')
  }

  function Leaf(i: nat, value: nat): TreeNode { TreeNode(Name(i), value, Available, "") }

  /** n leaves worth `value`. */
  function Copies(value: nat, n: nat): seq<TreeNode> {
    if n == 0 then [] else [Leaf(n, value)] + Copies(value, n - 1)
  }

  lemma NewName(x: TreeNode, rest: seq<TreeNode>, n: nat)
    requires DistinctIds(rest) && |x.id| > n && forall m :: m in rest ==> |m.id| <= n
    ensures DistinctIds([x] + rest) && forall m :: m in [x] + rest ==> m == x || m in rest
  {
    var s := [x] + rest;
    forall i, j | 0 <= i < j < |s| ensures s[i].id != s[j].id {
      assert s[j] == rest[j - 1] && s[j] in rest;
    }
  }

  predicate AllWorth(leaves: seq<TreeNode>, value: nat) {
    forall m :: m in leaves ==> m.value == value
  }

  lemma {:induction false} CopiesAre(value: nat, n: nat)
    ensures var c := Copies(value, n);
            |c| == n && DistinctIds(c) && AllWorth(c, value) && forall m :: m in c ==> |m.id| <= n
  {
    if n > 0 {
      CopiesAre(value, n - 1);
      NewName(Leaf(n, value), Copies(value, n - 1), n - 1);
    }
  }

  lemma {:induction false} CopiesTotal(value: nat, n: nat)
    ensures Total(Copies(value, n)) == n * value
  {
    if n > 0 {
      CopiesTotal(value, n - 1);
      assert ([Leaf(n, value)] + Copies(value, n - 1))[1..] == Copies(value, n - 1);
      assert n * value == (n - 1) * value + value;
    }
  }

  predicate Descending(leaves: seq<TreeNode>) {
    forall i, j :: 0 <= i < j < |leaves| ==> leaves[i].value >= leaves[j].value
  }

  lemma {:induction false} DescendingIsSorted(leaves: seq<TreeNode>)
    requires Descending(leaves)
    ensures SortByKey(leaves, DescendingValue) == leaves
  {
    if leaves != [] {
      DescendingIsSorted(leaves[1..]);
      SortCons(leaves[0], leaves[1..]);
      assert leaves == [leaves[0]] + leaves[1..];
    }
  }

  /** Two leaves worth b in front of leaves worth a, which together are worth `more` than b by less than a. */
  ghost predicate Stuck(leaves: seq<TreeNode>, a: nat, b: nat, more: nat) {
    && |leaves| >= 2 && leaves[0].value == b && leaves[1].value == b
    && AllWorth(leaves[2..], a) && Total(leaves[2..]) == more
    && 0 < a <= b < more < b + a
  }

  lemma StuckExists(a: nat, b: nat, k: nat, more: nat) returns (leaves: seq<TreeNode>)
    requires 0 < a <= b < more < b + a && more == k * a
    ensures Stuck(leaves, a, b, more)
    ensures DistinctIds(leaves) && forall m :: m in leaves ==> m.value == a || m.value == b
  {
    var x, y, rest := Leaf(k + 2, b), Leaf(k + 1, b), Copies(a, k);
    leaves := [x] + ([y] + rest);
    CopiesAre(a, k);
    CopiesTotal(a, k);
    NewName(y, rest, k);
    NewName(x, [y] + rest, k + 1);
    assert leaves[2..] == rest;
  }

  lemma StuckDescends(leaves: seq<TreeNode>, a: nat, b: nat, more: nat)
    requires Stuck(leaves, a, b, more)
    ensures Descending(leaves)
  {
    forall i | 2 <= i < |leaves| ensures leaves[i].value == a {
      assert leaves[i] == leaves[2..][i - 2] && leaves[i] in leaves[2..];
    }
  }

  /** One of the two, and all the others, make b + more. */
  lemma StuckHasASubset(leaves: seq<TreeNode>, a: nat, b: nat, more: nat)
    requires Stuck(leaves, a, b, more)
    ensures SomeSubsetSums(leaves, b + more)
  {
    EverythingIsASubset(leaves[2..]);
    assert leaves[1..][1..] == leaves[2..];
    assert SomeSubsetSums(leaves[1..], more);
  }

  lemma {:induction false} EverythingIsASubset(leaves: seq<TreeNode>)
    ensures SomeSubsetSums(leaves, Total(leaves))
  {
    if leaves != [] { EverythingIsASubset(leaves[1..]); }
  }

  lemma GreedyHead(leaves: seq<TreeNode>, t: nat)
    requires leaves != [] && leaves[0].value < t && Greedy(leaves[1..], t - leaves[0].value).None?
    ensures Greedy(leaves, t).None?
  {
  }

  /** Taking both leaves worth b leaves less than a missing. */
  lemma GreedyGetsStuck(leaves: seq<TreeNode>, a: nat, b: nat, more: nat)
    requires Stuck(leaves, a, b, more)
    ensures Greedy(leaves, b + more).None?
  {
    TooLarge(leaves[2..], more - b);
    assert leaves[1..][1..] == leaves[2..];
    GreedyHead(leaves[1..], more);
    GreedyHead(leaves, b + more);
  }

  lemma PowersHead(leaves: seq<TreeNode>)
    requires leaves != []
    ensures Total(PowerOfTwoLeaves(leaves))
         == (if IsPowerOfTwo(leaves[0].value) then leaves[0].value else 0) + Total(PowerOfTwoLeaves(leaves[1..]))
  {
    var rest := PowerOfTwoLeaves(leaves[1..]);
    assert ([leaves[0]] + rest)[1..] == rest;
  }

  /** Only one of the two values can be a power of two, and its leaves alone are not worth enough. */
  lemma PowersAreTooFew(leaves: seq<TreeNode>, a: nat, b: nat, more: nat)
    requires Stuck(leaves, a, b, more) && !(IsPowerOfTwo(a) && IsPowerOfTwo(b))
    ensures Total(PowerOfTwoLeaves(leaves)) < b + more
  {
    PowersHead(leaves);
    PowersHead(leaves[1..]);
    assert leaves[1..][1..] == leaves[2..];
    PowersOfEqual(leaves[2..], a);
  }

  lemma PowersOfEqual(leaves: seq<TreeNode>, a: nat)
    requires AllWorth(leaves, a)
    ensures Total(PowerOfTwoLeaves(leaves)) == if IsPowerOfTwo(a) then Total(leaves) else 0
  {
    if !IsPowerOfTwo(a) { NoPowersLeft(leaves); }
  }

  lemma GreedyWithinTotal(leaves: seq<TreeNode>, t: nat)
    requires Total(leaves) < t
    ensures Greedy(SortByKey(leaves, DescendingValue), t).None?
  {
    var r := Greedy(SortByKey(leaves, DescendingValue), t);
    if r.Some? {
      SubBagTotal(r.value, leaves);
    }
  }

  lemma BothPassesGetStuck(leaves: seq<TreeNode>, t: nat)
    requires Descending(leaves) && Greedy(leaves, t).None? && Total(PowerOfTwoLeaves(leaves)) < t
    ensures FindExactMultipleMatch(leaves, t).None?
  {
    DescendingIsSorted(leaves);
    GreedyWithinTotal(PowerOfTwoLeaves(leaves), t);
  }

  lemma NoMatchNoSelection(leaves: seq<TreeNode>, t: nat)
    requires FindExactMultipleMatch(leaves, t).None? && forall m :: m in leaves ==> m.value != t
    ensures SelectByTargetAmounts(leaves, Some(AmountAndFee(t, None))).Err?
  {
  }

  /* ---------- the exact condition ---------- */

  lemma {:induction false} MultipleOfProduct(q: nat, a: nat)
    requires a > 0
    ensures Multiple(q * a, a)
  {
    if q > 0 {
      assert q * a - a == (q - 1) * a && q * a >= a;
      MultipleOfProduct(q - 1, a);
    }
  }

  /** If a does not divide b, some multiple of a lies strictly between b and b + a, and not both are powers of two. */
  lemma NextMultiple(a: nat, b: nat) returns (k: nat, more: nat)
    requires 0 < a <= b && !Multiple(b, a)
    ensures more == k * a && b < more < b + a && !(IsPowerOfTwo(a) && IsPowerOfTwo(b))
  {
    var q := b / a;
    k, more := q + 1, q * a + a;
    assert b == q * a + b % a;
    assert k * a == q * a + a;
    MultipleOfProduct(q, a);
    if IsPowerOfTwo(a) && IsPowerOfTwo(b) {
      SmallerPowerDivides(b, a);
    }
  }

  /** Leaves with these values on which the search misses a subset, and an amount no single leaf has. */
  ghost predicate Missed(values: iset<nat>, leaves: seq<TreeNode>, t: nat) {
    && DistinctIds(leaves) && ValuesIn(leaves, values) && t > 0
    && SomeSubsetSums(leaves, t) && FindExactMultipleMatch(leaves, t).None? && forall m :: m in leaves ==> m.value != t
  }

  lemma StuckList(a: nat, b: nat) returns (leaves: seq<TreeNode>, more: nat)
    requires 0 < a <= b && !Multiple(b, a)
    ensures Stuck(leaves, a, b, more) && Total(PowerOfTwoLeaves(leaves)) < b + more
    ensures DistinctIds(leaves) && forall m :: m in leaves ==> m.value == a || m.value == b
  {
    var k;
    k, more := NextMultiple(a, b);
    leaves := StuckExists(a, b, k, more);
    PowersAreTooFew(leaves, a, b, more);
  }

  /** A list and an amount that a subset makes and the first pass does not, the powers of two being worth less. */
  lemma StuckAmount(a: nat, b: nat) returns (leaves: seq<TreeNode>, t: nat)
    requires 0 < a <= b && !Multiple(b, a)
    ensures DistinctIds(leaves) && forall m :: m in leaves ==> (m.value == a || m.value == b) && m.value != t
    ensures SomeSubsetSums(leaves, t) && Descending(leaves) && Greedy(leaves, t).None?
    ensures Total(PowerOfTwoLeaves(leaves)) < t
  {
    var more;
    leaves, more := StuckList(a, b);
    t := b + more;
    StuckHasASubset(leaves, a, b, more);
    StuckDescends(leaves, a, b, more);
    GreedyGetsStuck(leaves, a, b, more);
  }

  lemma OneDoesNotDivide(values: iset<nat>)
    requires !DividingValues(values)
    ensures exists leaves, t :: Missed(values, leaves, t)
  {
    var a, b :| a in values && b in values && 0 < a <= b && !Multiple(b, a);
    var leaves, t := StuckAmount(a, b);
    BothPassesGetStuck(leaves, t);
    assert Missed(values, leaves, t);
  }

  /** The search misses no subset of leaves with these values if and only if the values divide each other. */
  lemma SearchNeverMissesIff(values: iset<nat>)
    ensures SearchNeverMisses(values) <==> DividingValues(values)
  {
    if DividingValues(values) {
      forall leaves: seq<TreeNode>, t: nat
        | DistinctIds(leaves) && ValuesIn(leaves, values) && SomeSubsetSums(leaves, t)
        ensures FindExactMultipleMatch(leaves, t).Some?
      {
        DividingValuesMakeChains(leaves, values);
        ExactMatchBounds(leaves, t);
      }
    } else {
      OneDoesNotDivide(values);
    }
  }

  /** The same for whole requests: an amount, or an amount and a fee, that the leaves can make is never refused if and
      only if the values divide each other. */
  lemma TargetsNeverMissedIff(values: iset<nat>)
    ensures TargetsNeverMissed(values) <==> DividingValues(values)
  {
    if DividingValues(values) {
      forall leaves: seq<TreeNode>, amount: nat, fee: Option<nat>
        | DistinctIds(leaves) && ValuesIn(leaves, values) && Makeable(leaves, amount, fee)
        ensures SelectByTargetAmounts(leaves, Some(AmountAndFee(amount, fee))).Ok?
      {
        DividingValuesMakeChains(leaves, values);
        AmountAndFeeComplete(leaves, amount, fee);
      }
    } else {
      OneDoesNotDivide(values);
      var leaves, t :| Missed(values, leaves, t);
      NoMatchNoSelection(leaves, t);
      assert Makeable(leaves, t, None);
    }
  }
}

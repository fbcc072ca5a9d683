/** Choosing leaves for a payment: crates/spark/src/tree/select_helper.rs. */
module LeafSelection {
  import opened Prelude
  import opened PowersOfTwo

  type LeafId = string

  datatype TreeNodeStatus =
    | Creating | Available | FrozenByIssuer | TransferLocked | SplitLocked | Splitted | Aggregated
    | OnChain | Exited | AggregateLock | Investigation | Lost | Reimbursed | RenewLocked
    | ParentExited | Unknown

  /** A leaf; `body` stands for the transactions and keys, which no rule below reads. */
  datatype TreeNode = TreeNode(id: LeafId, value: nat, status: TreeNodeStatus, body: string)

  datatype TreeServiceError =
    | InsufficientFunds | UnselectableAmount | InvalidAmount | NonReservableLeaves
    | ReservationNotFound | DatabaseError

  datatype TargetAmounts =
    | AmountAndFee(amountSats: nat, feeSats: Option<nat>)
    | ExactDenominations(denominations: seq<nat>)

  datatype TargetLeaves = TargetLeaves(amountLeaves: seq<TreeNode>, feeLeaves: Option<seq<TreeNode>>) {
    function All(): seq<TreeNode> {
      amountLeaves + if feeLeaves.Some? then feeLeaves.value else []
    }
  }

  function SumNats(s: seq<nat>): nat {
    if s == [] then 0 else s[0] + SumNats(s[1..])
  }

  function TotalSats(targets: Option<TargetAmounts>): nat {
    match targets
    case None => 0
    case Some(AmountAndFee(amount, fee)) => amount + if fee.Some? then fee.value else 0
    case Some(ExactDenominations(ds)) => SumNats(ds)
  }

  function Total(nodes: seq<TreeNode>): nat {
    if nodes == [] then 0 else nodes[0].value + Total(nodes[1..])
  }

  function Ids(nodes: seq<TreeNode>): set<LeafId> {
    set n | n in nodes :: n.id
  }

  predicate DistinctIds(nodes: seq<TreeNode>) {
    forall i, j :: 0 <= i < j < |nodes| ==> nodes[i].id != nodes[j].id
  }

  /** The nodes whose id is not in `ids`, in order. */
  function Without(nodes: seq<TreeNode>, ids: set<LeafId>): seq<TreeNode> {
    if nodes == [] then []
    else if nodes[0].id in ids then Without(nodes[1..], ids)
    else [nodes[0]] + Without(nodes[1..], ids)
  }

  lemma {:induction false} WithoutMembers(nodes: seq<TreeNode>, ids: set<LeafId>)
    ensures forall n :: n in Without(nodes, ids) <==> n in nodes && n.id !in ids
  {
    if nodes != [] {
      WithoutMembers(nodes[1..], ids);
    }
  }

  lemma {:induction false} WithoutDistinct(nodes: seq<TreeNode>, ids: set<LeafId>)
    requires DistinctIds(nodes)
    ensures DistinctIds(Without(nodes, ids))
  {
    if nodes != [] {
      WithoutDistinct(nodes[1..], ids);
      WithoutMembers(nodes[1..], ids);
      assert forall n :: n in nodes[1..] ==> n.id != nodes[0].id;
    }
  }

  lemma {:induction false} WithoutBag(nodes: seq<TreeNode>, ids: set<LeafId>)
    ensures multiset(Without(nodes, ids)) <= multiset(nodes)
  {
    if nodes != [] {
      assert nodes == [nodes[0]] + nodes[1..];
      WithoutBag(nodes[1..], ids);
    }
  }

  lemma TotalAppend(a: seq<TreeNode>, b: seq<TreeNode>)
    ensures Total(a + b) == Total(a) + Total(b)
  {
    if a == [] {
      assert a + b == b;
    } else {
      assert (a + b)[1..] == a[1..] + b;
    }
  }

  lemma CountTwice(s: seq<TreeNode>, i: nat, j: nat)
    requires i < j < |s| && s[i] == s[j]
    ensures multiset(s)[s[i]] >= 2
  {
    assert s == s[..i] + [s[i]] + s[i + 1..j] + [s[j]] + s[j + 1..];
  }

  lemma {:induction false} CountOnce(s: seq<TreeNode>, x: TreeNode)
    requires DistinctIds(s)
    ensures multiset(s)[x] <= 1
  {
    if s != [] {
      assert s == [s[0]] + s[1..];
      CountOnce(s[1..], x);
      if x == s[0] {
        assert x !in s[1..];
      }
    }
  }

  /** A bag of leaves taken from leaves with distinct ids has distinct ids. */
  lemma DistinctSubBag(sub: seq<TreeNode>, nodes: seq<TreeNode>)
    requires DistinctIds(nodes) && multiset(sub) <= multiset(nodes)
    ensures DistinctIds(sub) && forall n :: n in sub ==> n in nodes
  {
    forall n | n in sub ensures n in nodes { assert n in multiset(sub); }
    forall i, j | 0 <= i < j < |sub| ensures sub[i].id != sub[j].id {
      assert sub[i] in nodes && sub[j] in nodes;
      if sub[i].id == sub[j].id {
        CountOnce(nodes, sub[i]);
        CountTwice(sub, i, j);
      }
    }
  }

  lemma {:induction false} TotalWithout(nodes: seq<TreeNode>, i: nat)
    requires i < |nodes|
    ensures Total(nodes) == nodes[i].value + Total(nodes[..i] + nodes[i + 1..])
  {
    if i == 0 {
      assert nodes[..0] + nodes[1..] == nodes[1..];
    } else {
      TotalWithout(nodes[1..], i - 1);
      assert (nodes[..i] + nodes[i + 1..])[1..] == nodes[1..][..i - 1] + nodes[1..][i..];
    }
  }

  lemma SubBagTail(sub: seq<TreeNode>, nodes: seq<TreeNode>, i: nat)
    requires sub != [] && i < |nodes| && nodes[i] == sub[0] && multiset(sub) <= multiset(nodes)
    ensures multiset(sub[1..]) <= multiset(nodes[..i] + nodes[i + 1..])
  {
    assert sub == [sub[0]] + sub[1..];
    assert nodes == nodes[..i] + [nodes[i]] + nodes[i + 1..];
    assert multiset(sub[1..]) == multiset(sub) - multiset{sub[0]};
  }

  lemma {:induction false} SubBagTotal(sub: seq<TreeNode>, nodes: seq<TreeNode>)
    requires multiset(sub) <= multiset(nodes)
    ensures Total(sub) <= Total(nodes)
  {
    if sub != [] {
      assert sub[0] in multiset(nodes);
      var i :| 0 <= i < |nodes| && nodes[i] == sub[0];
      SubBagTail(sub, nodes, i);
      TotalWithout(nodes, i);
      SubBagTotal(sub[1..], nodes[..i] + nodes[i + 1..]);
    }
  }

  /* ---------- a single leaf of the exact value ---------- */

  function FindExactSingleMatch(leaves: seq<TreeNode>, target: nat): (r: Option<TreeNode>)
    ensures r.Some? ==> r.value in leaves && r.value.value == target
    ensures r.None? <==> forall n :: n in leaves ==> n.value != target
  {
    if leaves == [] then None
    else if leaves[0].value == target then Some(leaves[0])
    else FindExactSingleMatch(leaves[1..], target)
  }

  /* ---------- the greedy exact match ---------- */

  function DescendingValue(n: TreeNode): int { -(n.value as int) }

  /** What the greedy pass takes from an ordered list: the next leaf that fits, until nothing is missing. */
  function Greedy(leaves: seq<TreeNode>, remaining: nat): (r: Option<seq<TreeNode>>)
    ensures r.Some? ==>
              && multiset(r.value) <= multiset(leaves)
              && Total(r.value) == remaining
              && r.value != []
  {
    if leaves == [] then None
    else
      var leaf, rest := leaves[0], leaves[1..];
      assert leaves == [leaf] + rest;
      if leaf.value > remaining then Greedy(rest, remaining)
      else if leaf.value == remaining then Some([leaf])
      else
        match Greedy(rest, remaining - leaf.value)
        case None => None
        case Some(more) => Some([leaf] + more)
  }

  ghost function Prepend(taken: seq<TreeNode>, more: Option<seq<TreeNode>>): Option<seq<TreeNode>> {
    if more.None? then None else Some(taken + more.value)
  }

  lemma GreedyStep(s: seq<TreeNode>, i: nat, remaining: nat, taken: seq<TreeNode>)
    requires i < |s| && remaining > 0
    ensures s[i].value > remaining ==> Greedy(s[i..], remaining) == Greedy(s[i + 1..], remaining)
    ensures s[i].value == remaining ==> Prepend(taken, Greedy(s[i..], remaining)) == Some(taken + [s[i]])
    ensures s[i].value < remaining ==>
              Prepend(taken, Greedy(s[i..], remaining)) ==
              Prepend(taken + [s[i]], Greedy(s[i + 1..], remaining - s[i].value))
  {
    assert s[i..][0] == s[i] && s[i..][1..] == s[i + 1..];
    if s[i].value < remaining {
      var more := Greedy(s[i + 1..], remaining - s[i].value);
      if more.Some? {
        assert taken + ([s[i]] + more.value) == taken + [s[i]] + more.value;
      }
    }
  }

  method GreedyExactMatch(leaves: seq<TreeNode>, target: nat) returns (r: Option<seq<TreeNode>>)
    requires target > 0
    ensures r == Greedy(SortByKey(leaves, DescendingValue), target)
  {
    var sorted := SortByKey(leaves, DescendingValue);
    var result: seq<TreeNode>, remaining := [], target;
    ghost var answer := Greedy(sorted, target);
    assert answer.Some? ==> [] + answer.value == answer.value;
    assert sorted[0..] == sorted;
    for i := 0 to |sorted|
      invariant remaining > 0
      invariant answer == Prepend(result, Greedy(sorted[i..], remaining))
    {
      var leaf := sorted[i];
      GreedyStep(sorted, i, remaining, result);
      if leaf.value > remaining {
        continue;
      }
      remaining := remaining - leaf.value;
      result := result + [leaf];
      if remaining == 0 {
        return Some(result);
      }
    }
    return None;
  }

  /* ---------- reference: can any subset reach the amount? ---------- */

  /** Some sub-collection of `leaves` adds up to exactly `t`. */
  predicate SomeSubsetSums(leaves: seq<TreeNode>, t: nat) {
    if leaves == [] then t == 0
    else
      || SomeSubsetSums(leaves[1..], t)
      || (leaves[0].value <= t && SomeSubsetSums(leaves[1..], t - leaves[0].value))
  }

  /** The definition above says what it should: it holds exactly when a chosen list of flags picks the amount. */
  function Picked(leaves: seq<TreeNode>, chosen: seq<bool>): nat
    requires |chosen| == |leaves|
  {
    if leaves == [] then 0
    else (if chosen[0] then leaves[0].value else 0) + Picked(leaves[1..], chosen[1..])
  }

  lemma {:induction false} SubsetByFlags(leaves: seq<TreeNode>, t: nat)
    ensures SomeSubsetSums(leaves, t)
       <==> exists chosen: seq<bool> :: |chosen| == |leaves| && Picked(leaves, chosen) == t
  {
    if leaves == [] {
      assert Picked(leaves, []) == 0;
    } else {
      var v, rest := leaves[0].value, leaves[1..];
      SubsetByFlags(rest, t);
      if v <= t { SubsetByFlags(rest, t - v); }
      if SomeSubsetSums(rest, t) {
        var c: seq<bool> :| |c| == |rest| && Picked(rest, c) == t;
        assert ([false] + c)[1..] == c;
        assert Picked(leaves, [false] + c) == t;
      } else if v <= t && SomeSubsetSums(rest, t - v) {
        var c: seq<bool> :| |c| == |rest| && Picked(rest, c) == t - v;
        assert ([true] + c)[1..] == c;
        assert Picked(leaves, [true] + c) == t;
      }
      forall chosen: seq<bool> | |chosen| == |leaves| && Picked(leaves, chosen) == t
        ensures SomeSubsetSums(leaves, t)
      {
        assert |chosen[1..]| == |rest|;
        assert Picked(rest, chosen[1..]) == if chosen[0] then t - v else t;
      }
    }
  }

  /** Two disjoint sub-collections of `leaves` add up to exactly `a` and exactly `b`. */
  predicate DisjointSubsetsSum(leaves: seq<TreeNode>, a: nat, b: nat) {
    if leaves == [] then a == 0 && b == 0
    else
      || DisjointSubsetsSum(leaves[1..], a, b)
      || (leaves[0].value <= a && DisjointSubsetsSum(leaves[1..], a - leaves[0].value, b))
      || (leaves[0].value <= b && DisjointSubsetsSum(leaves[1..], a, b - leaves[0].value))
  }

  predicate PickPair(leaves: seq<TreeNode>, first: seq<bool>, second: seq<bool>, a: nat, b: nat) {
    && |first| == |leaves| && |second| == |leaves|
    && (forall i :: 0 <= i < |leaves| ==> !(first[i] && second[i]))
    && Picked(leaves, first) == a && Picked(leaves, second) == b
  }

  lemma PickOneMore(leaves: seq<TreeNode>, first: seq<bool>, second: seq<bool>, a: nat, b: nat, x: bool, y: bool)
    requires leaves != [] && PickPair(leaves[1..], first, second, a, b) && !(x && y)
    ensures PickPair(leaves, [x] + first, [y] + second,
                     a + if x then leaves[0].value else 0, b + if y then leaves[0].value else 0)
  {
    assert ([x] + first)[1..] == first && ([y] + second)[1..] == second;
  }

  lemma {:induction false} FlagsOf(leaves: seq<TreeNode>, a: nat, b: nat)
    requires DisjointSubsetsSum(leaves, a, b)
    ensures exists first, second :: PickPair(leaves, first, second, a, b)
  {
    if leaves == [] {
      assert PickPair(leaves, [], [], a, b);
    } else {
      var v, rest := leaves[0].value, leaves[1..];
      var x := !DisjointSubsetsSum(rest, a, b) && v <= a && DisjointSubsetsSum(rest, a - v, b);
      var y := !DisjointSubsetsSum(rest, a, b) && !x;
      var p, q := a - (if x then v else 0), b - (if y then v else 0);
      FlagsOf(rest, p, q);
      var c, d :| PickPair(rest, c, d, p, q);
      PickOneMore(leaves, c, d, p, q, x, y);
    }
  }

  lemma {:induction false} FlagsSum(leaves: seq<TreeNode>, first: seq<bool>, second: seq<bool>, a: nat, b: nat)
    requires PickPair(leaves, first, second, a, b)
    ensures DisjointSubsetsSum(leaves, a, b)
  {
    if leaves != [] {
      var v := leaves[0].value;
      FlagsSum(leaves[1..], first[1..], second[1..], if first[0] then a - v else a, if second[0] then b - v else b);
    }
  }

  /** The same for two subsets: there are two lists of flags, never both set for one leaf. */
  lemma DisjointSubsetsByFlags(leaves: seq<TreeNode>, a: nat, b: nat)
    ensures DisjointSubsetsSum(leaves, a, b) <==> exists first, second :: PickPair(leaves, first, second, a, b)
  {
    if DisjointSubsetsSum(leaves, a, b) {
      FlagsOf(leaves, a, b);
    }
    forall first, second | PickPair(leaves, first, second, a, b) ensures DisjointSubsetsSum(leaves, a, b) {
      FlagsSum(leaves, first, second, a, b);
    }
  }

  lemma {:induction false} OneSubset(leaves: seq<TreeNode>, t: nat)
    ensures DisjointSubsetsSum(leaves, t, 0) <==> SomeSubsetSums(leaves, t)
    ensures DisjointSubsetsSum(leaves, 0, t) <==> SomeSubsetSums(leaves, t)
  {
    if leaves != [] {
      OneSubset(leaves[1..], t);
      if leaves[0].value <= t { OneSubset(leaves[1..], t - leaves[0].value); }
    }
  }

  /** Each of two disjoint subsets is a subset, and so is their union. */
  lemma {:induction false} EitherAndBoth(leaves: seq<TreeNode>, a: nat, b: nat)
    requires DisjointSubsetsSum(leaves, a, b)
    ensures SomeSubsetSums(leaves, a) && SomeSubsetSums(leaves, b) && SomeSubsetSums(leaves, a + b)
  {
    if leaves != [] {
      var v, rest := leaves[0].value, leaves[1..];
      if DisjointSubsetsSum(rest, a, b) {
        EitherAndBoth(rest, a, b);
      } else if v <= a && DisjointSubsetsSum(rest, a - v, b) {
        EitherAndBoth(rest, a - v, b);
        assert a - v + b == a + b - v;
      } else {
        EitherAndBoth(rest, a, b - v);
        assert a + (b - v) == a + b - v;
      }
    }
  }

  ghost predicate SameSums(x: seq<TreeNode>, y: seq<TreeNode>) {
    forall a: nat, b: nat :: DisjointSubsetsSum(x, a, b) <==> DisjointSubsetsSum(y, a, b)
  }

  lemma SameSubsets(x: seq<TreeNode>, y: seq<TreeNode>, t: nat)
    requires SameSums(x, y)
    ensures SomeSubsetSums(x, t) <==> SomeSubsetSums(y, t)
  {
    OneSubset(x, t);
    OneSubset(y, t);
  }

  lemma SumsCons(x: TreeNode, s: seq<TreeNode>, a: nat, b: nat)
    ensures DisjointSubsetsSum([x] + s, a, b)
       <==> || DisjointSubsetsSum(s, a, b)
            || (x.value <= a && DisjointSubsetsSum(s, a - x.value, b))
            || (x.value <= b && DisjointSubsetsSum(s, a, b - x.value))
  {
    assert ([x] + s)[1..] == s;
  }

  lemma SameSumsCons(x: TreeNode, s: seq<TreeNode>, r: seq<TreeNode>)
    requires SameSums(s, r)
    ensures SameSums([x] + s, [x] + r)
  {
    forall a: nat, b: nat ensures DisjointSubsetsSum([x] + s, a, b) <==> DisjointSubsetsSum([x] + r, a, b) {
      SumsCons(x, s, a, b);
      SumsCons(x, r, a, b);
    }
  }

  /** The sums of [x, y] + s, spelled out; the right-hand side is symmetric in x and y. */
  lemma SumsConsTwice(x: TreeNode, y: TreeNode, s: seq<TreeNode>, a: nat, b: nat)
    ensures DisjointSubsetsSum([x] + ([y] + s), a, b)
       <==> || DisjointSubsetsSum(s, a, b)
            || (x.value <= a && DisjointSubsetsSum(s, a - x.value, b))
            || (x.value <= b && DisjointSubsetsSum(s, a, b - x.value))
            || (y.value <= a && DisjointSubsetsSum(s, a - y.value, b))
            || (y.value <= b && DisjointSubsetsSum(s, a, b - y.value))
            || (x.value + y.value <= a && DisjointSubsetsSum(s, a - (x.value + y.value), b))
            || (x.value + y.value <= b && DisjointSubsetsSum(s, a, b - (x.value + y.value)))
            || (x.value <= a && y.value <= b && DisjointSubsetsSum(s, a - x.value, b - y.value))
            || (y.value <= a && x.value <= b && DisjointSubsetsSum(s, a - y.value, b - x.value))
  {
    SumsCons(x, [y] + s, a, b);
    SumsCons(y, s, a, b);
    if x.value <= a {
      SumsCons(y, s, a - x.value, b);
      assert a - x.value - y.value == a - (x.value + y.value);
    }
    if x.value <= b {
      SumsCons(y, s, a, b - x.value);
      assert b - x.value - y.value == b - (x.value + y.value);
    }
  }

  lemma SameSumsSwap(x: TreeNode, y: TreeNode, s: seq<TreeNode>)
    ensures SameSums([y] + ([x] + s), [x] + ([y] + s))
  {
    forall a: nat, b: nat
      ensures DisjointSubsetsSum([y] + ([x] + s), a, b) <==> DisjointSubsetsSum([x] + ([y] + s), a, b)
    {
      SumsConsTwice(x, y, s, a, b);
      SumsConsTwice(y, x, s, a, b);
    }
  }

  lemma {:induction false} InsertKeepsSubsets(x: TreeNode, s: seq<TreeNode>)
    ensures SameSums(InsertByKey(x, s, DescendingValue), [x] + s)
  {
    if s == [] {
      assert [x] + s == [x];
    } else if DescendingValue(x) > DescendingValue(s[0]) {
      var y, rest := s[0], s[1..];
      var r := InsertByKey(x, rest, DescendingValue);
      InsertKeepsSubsets(x, rest);
      SameSumsCons(y, r, [x] + rest);
      SameSumsSwap(x, y, rest);
      assert s == [y] + rest;
    }
  }

  lemma {:induction false} SortKeepsSubsets(s: seq<TreeNode>)
    ensures SameSums(SortByKey(s, DescendingValue), s)
  {
    if s != [] {
      var r := SortByKey(s[1..], DescendingValue);
      SortKeepsSubsets(s[1..]);
      InsertKeepsSubsets(s[0], r);
      SameSumsCons(s[0], r, s[1..]);
      assert s == [s[0]] + s[1..];
    }
  }

  lemma {:induction false} GreedyIsASubset(leaves: seq<TreeNode>, t: nat)
    requires Greedy(leaves, t).Some?
    ensures SomeSubsetSums(leaves, t)
  {
    if leaves[0].value > t {
      GreedyIsASubset(leaves[1..], t);
    } else if leaves[0].value == t {
      NothingReachesZero(leaves[1..]);
    } else {
      GreedyIsASubset(leaves[1..], t - leaves[0].value);
    }
  }

  lemma NothingReachesZero(leaves: seq<TreeNode>)
    ensures SomeSubsetSums(leaves, 0)
  {
  }

  /* ---------- the greedy match is complete on powers of two ---------- */

  predicate AllPowersOfTwo(leaves: seq<TreeNode>) {
    forall n :: n in leaves ==> IsPowerOfTwo(n.value)
  }

  /** Of two positive values among the leaves, the smaller divides the larger. */
  ghost predicate DivisibilityChain(leaves: seq<TreeNode>) {
    forall m, n :: m in leaves && n in leaves && 0 < n.value <= m.value ==> Multiple(m.value, n.value)
  }

  lemma PowersAreAChain(leaves: seq<TreeNode>)
    requires AllPowersOfTwo(leaves)
    ensures DivisibilityChain(leaves)
  {
    forall m, n | m in leaves && n in leaves && 0 < n.value <= m.value ensures Multiple(m.value, n.value) {
      SmallerPowerDivides(m.value, n.value);
    }
  }

  ghost predicate EachDivides(leaves: seq<TreeNode>, h: nat) {
    forall n :: n in leaves && n.value > 0 ==> Multiple(h, n.value)
  }

  lemma HeadIsMultiple(leaves: seq<TreeNode>)
    requires leaves != [] && SortedBy(leaves, DescendingValue) && DivisibilityChain(leaves)
    ensures DivisibilityChain(leaves[1..]) && SortedBy(leaves[1..], DescendingValue)
    ensures EachDivides(leaves[1..], leaves[0].value)
  {
    assert leaves[0] in leaves;
    forall n | n in leaves[1..] && n.value > 0 ensures Multiple(leaves[0].value, n.value) {
      assert n in leaves && DescendingValue(leaves[0]) <= DescendingValue(n);
    }
  }

  /** In a descending divisibility chain every leaf of which divides `h`, a subset worth `a` contains a part worth
      exactly `h`: the part can be dropped, or moved over to a second, disjoint subset. */
  lemma {:induction false} SplitOff(leaves: seq<TreeNode>, h: nat, a: nat, b: nat)
    requires SortedBy(leaves, DescendingValue) && DivisibilityChain(leaves) && EachDivides(leaves, h)
    requires h <= a && DisjointSubsetsSum(leaves, a, b)
    ensures DisjointSubsetsSum(leaves, a - h, b) && DisjointSubsetsSum(leaves, a - h, b + h)
  {
    if leaves != [] && h > 0 {
      var v, rest := leaves[0].value, leaves[1..];
      HeadIsMultiple(leaves);
      assert EachDivides(rest, h);
      if DisjointSubsetsSum(rest, a, b) {
        SplitOff(rest, h, a, b);
      } else if v <= a && DisjointSubsetsSum(rest, a - v, b) {
        assert leaves[0] in leaves && Multiple(h, v);
        forall n | n in rest && n.value > 0 ensures Multiple(h - v, n.value) {
          MultipleDifference(h, v, n.value);
        }
        SplitOff(rest, h - v, a - v, b);
        assert a - v - (h - v) == a - h && b + (h - v) == b + h - v;
      } else {
        SplitOff(rest, h, a, b - v);
        assert b - v + h == b + h - v;
      }
    }
  }

  /** The leaves the greedy pass leaves behind. */
  function GreedyLeft(leaves: seq<TreeNode>, remaining: nat): seq<TreeNode> {
    if leaves == [] then []
    else
      var leaf, rest := leaves[0], leaves[1..];
      if leaf.value > remaining then [leaf] + GreedyLeft(rest, remaining)
      else if leaf.value == remaining then rest
      else GreedyLeft(rest, remaining - leaf.value)
  }

  /** When the head is taken whole, the others still make `b`. */
  lemma HeadMakesAll(rest: seq<TreeNode>, a: nat, b: nat)
    requires || DisjointSubsetsSum(rest, a, b) || DisjointSubsetsSum(rest, 0, b)
             || (a <= b && DisjointSubsetsSum(rest, a, b - a))
    ensures SomeSubsetSums(rest, b)
  {
    if DisjointSubsetsSum(rest, a, b) {
      EitherAndBoth(rest, a, b);
    } else if DisjointSubsetsSum(rest, 0, b) {
      EitherAndBoth(rest, 0, b);
    } else {
      EitherAndBoth(rest, a, b - a);
    }
  }

  /** When the head is part of the greedy choice, the others still make what is missing and `b`. */
  lemma HeadCanBeTaken(rest: seq<TreeNode>, v: nat, a: nat, b: nat)
    requires SortedBy(rest, DescendingValue) && DivisibilityChain(rest) && EachDivides(rest, v) && v <= a
    requires || DisjointSubsetsSum(rest, a, b) || DisjointSubsetsSum(rest, a - v, b)
             || (v <= b && DisjointSubsetsSum(rest, a, b - v))
    ensures DisjointSubsetsSum(rest, a - v, b)
  {
    if DisjointSubsetsSum(rest, a, b) {
      SplitOff(rest, v, a, b);
    } else if !DisjointSubsetsSum(rest, a - v, b) {
      SplitOff(rest, v, a, b - v);
    }
  }

  /** On a descending divisibility chain the greedy pass finds `a` whenever some subset makes it, and its choice is
      the most considerate one: whatever a second, disjoint subset could make, the leaves left behind still make. */
  lemma {:induction false} GreedyCompleteOnSorted(leaves: seq<TreeNode>, a: nat, b: nat)
    requires SortedBy(leaves, DescendingValue) && DivisibilityChain(leaves)
    requires a > 0 && DisjointSubsetsSum(leaves, a, b)
    ensures Greedy(leaves, a).Some? && SomeSubsetSums(GreedyLeft(leaves, a), b)
  {
    var v, rest := leaves[0].value, leaves[1..];
    HeadIsMultiple(leaves);
    if v > a {
      GreedyCompleteOnSorted(rest, a, if DisjointSubsetsSum(rest, a, b) then b else b - v);
      var left := GreedyLeft(rest, a);
      SubsetOneMore(leaves[0], left, b);
    } else if v == a {
      HeadMakesAll(rest, a, b);
    } else {
      HeadCanBeTaken(rest, v, a, b);
      GreedyCompleteOnSorted(rest, a - v, b);
    }
  }

  lemma SubsetOneMore(x: TreeNode, s: seq<TreeNode>, t: nat)
    ensures SomeSubsetSums([x] + s, t)
       <==> SomeSubsetSums(s, t) || (x.value <= t && SomeSubsetSums(s, t - x.value))
  {
    assert ([x] + s)[1..] == s;
  }

  function PowerOfTwoLeaves(leaves: seq<TreeNode>): (r: seq<TreeNode>)
    ensures AllPowersOfTwo(r) && multiset(r) <= multiset(leaves)
    ensures |r| <= |leaves| && (|r| == |leaves| ==> r == leaves)
    ensures AllPowersOfTwo(leaves) ==> r == leaves
  {
    if leaves == [] then []
    else
      assert leaves == [leaves[0]] + leaves[1..];
      var rest := PowerOfTwoLeaves(leaves[1..]);
      assert leaves[0] in leaves;
      if IsPowerOfTwo(leaves[0].value) then [leaves[0]] + rest else rest
  }

  function FindExactMultipleMatch(leaves: seq<TreeNode>, target: nat): (r: Option<seq<TreeNode>>)
    ensures r.Some? ==> multiset(r.value) <= multiset(leaves) && Total(r.value) == target
  {
    if target == 0 then Some([])
    else if leaves == [] then None
    else
      var first := Greedy(SortByKey(leaves, DescendingValue), target);
      if first.Some? then first
      else
        var powers := PowerOfTwoLeaves(leaves);
        if |powers| == |leaves| then None else Greedy(SortByKey(powers, DescendingValue), target)
  }

  lemma {:induction false} SubsetOfPowers(leaves: seq<TreeNode>, t: nat)
    requires SomeSubsetSums(PowerOfTwoLeaves(leaves), t)
    ensures SomeSubsetSums(leaves, t)
  {
    if leaves != [] {
      var rest := PowerOfTwoLeaves(leaves[1..]);
      if IsPowerOfTwo(leaves[0].value) {
        assert ([leaves[0]] + rest)[1..] == rest;
        if SomeSubsetSums(rest, t) {
          SubsetOfPowers(leaves[1..], t);
        } else {
          SubsetOfPowers(leaves[1..], t - leaves[0].value);
        }
      } else {
        SubsetOfPowers(leaves[1..], t);
      }
    }
  }

  /** On every divisibility chain the greedy pass succeeds exactly when some subset makes the amount. */
  lemma GreedyCompleteOnChains(leaves: seq<TreeNode>, t: nat)
    requires DivisibilityChain(leaves) && t > 0
    ensures Greedy(SortByKey(leaves, DescendingValue), t).Some? <==> SomeSubsetSums(leaves, t)
  {
    var sorted := SortByKey(leaves, DescendingValue);
    PermutationMembers(sorted, leaves);
    SortKeepsSubsets(leaves);
    SameSubsets(sorted, leaves, t);
    if SomeSubsetSums(leaves, t) {
      OneSubset(sorted, t);
      GreedyCompleteOnSorted(sorted, t, 0);
    } else if Greedy(sorted, t).Some? {
      GreedyIsASubset(sorted, t);
    }
  }

  lemma GreedyCompleteOnPowers(leaves: seq<TreeNode>, t: nat)
    requires AllPowersOfTwo(leaves) && t > 0
    ensures Greedy(SortByKey(leaves, DescendingValue), t).Some? <==> SomeSubsetSums(leaves, t)
  {
    PowersAreAChain(leaves);
    GreedyCompleteOnChains(leaves, t);
  }

  /** The two passes find an exact match whenever the power-of-two leaves alone can make the amount, and never claim
      one that no subset of the leaves makes. On a divisibility chain they find one exactly when there is one. */
  lemma ExactMatchBounds(leaves: seq<TreeNode>, t: nat)
    ensures SomeSubsetSums(PowerOfTwoLeaves(leaves), t) ==> FindExactMultipleMatch(leaves, t).Some?
    ensures FindExactMultipleMatch(leaves, t).Some? ==> SomeSubsetSums(leaves, t)
    ensures DivisibilityChain(leaves)
        ==> (FindExactMultipleMatch(leaves, t).Some? <==> SomeSubsetSums(leaves, t))
  {
    NothingReachesZero(leaves);
    if t > 0 && leaves != [] {
      var powers := PowerOfTwoLeaves(leaves);
      GreedyCompleteOnPowers(powers, t);
      if DivisibilityChain(leaves) { GreedyCompleteOnChains(leaves, t); }
      var sorted := SortByKey(leaves, DescendingValue);
      SortKeepsSubsets(leaves);
      SameSubsets(sorted, leaves, t);
      if Greedy(sorted, t).Some? { GreedyIsASubset(sorted, t); }
      if SomeSubsetSums(powers, t) { SubsetOfPowers(leaves, t); }
    }
  }

  /** Outside the chains the search is incomplete: 3 + 3 makes 6, but 5 is taken first. */
  lemma GreedyMissesAnExactSubset(a: TreeNode, b: TreeNode, c: TreeNode)
    requires a.value == 5 && b.value == 3 && c.value == 3
    requires a.id != b.id && a.id != c.id && b.id != c.id
    ensures DistinctIds([a, b, c])
    ensures SomeSubsetSums([a, b, c], 6) && FindExactMultipleMatch([a, b, c], 6).None?
  {
    ThreeAndThree(b, c);
    SubsetOneMore(a, [b, c], 6);
    assert [a] + [b, c] == [a, b, c];
    SortedAlready(a, b, c);
    FiveFirst(a, b, c);
    NotPowers();
    NoPowersLeft([a, b, c]);
    BothPassesFail([a, b, c], 6);
  }

  lemma BothPassesFail(leaves: seq<TreeNode>, t: nat)
    requires t > 0 && Greedy(SortByKey(leaves, DescendingValue), t).None?
    requires Greedy(SortByKey(PowerOfTwoLeaves(leaves), DescendingValue), t).None?
    ensures FindExactMultipleMatch(leaves, t).None?
  {
  }

  lemma FiveFirst(a: TreeNode, b: TreeNode, c: TreeNode)
    requires a.value == 5 && b.value == 3 && c.value == 3
    ensures Greedy([a, b, c], 6).None?
  {
    assert [a, b, c][1..] == [b, c];
    TooLarge([b, c], 1);
  }

  lemma ThreeAndThree(b: TreeNode, c: TreeNode)
    requires b.value == 3 && c.value == 3
    ensures SomeSubsetSums([b, c], 6)
  {
    assert [c][1..] == [] && [b, c][1..] == [c];
    assert SomeSubsetSums([c], 3);
  }

  lemma {:induction false} TooLarge(leaves: seq<TreeNode>, t: nat)
    requires forall n :: n in leaves ==> n.value > t
    ensures Greedy(leaves, t).None?
  {
    if leaves != [] { TooLarge(leaves[1..], t); }
  }

  lemma {:induction false} NoPowersLeft(leaves: seq<TreeNode>)
    requires forall n :: n in leaves ==> !IsPowerOfTwo(n.value)
    ensures PowerOfTwoLeaves(leaves) == []
  {
    if leaves != [] {
      assert leaves[0] in leaves;
      NoPowersLeft(leaves[1..]);
    }
  }

  lemma SortCons(x: TreeNode, s: seq<TreeNode>)
    requires SortByKey(s, DescendingValue) == s && (s != [] ==> x.value >= s[0].value)
    ensures SortByKey([x] + s, DescendingValue) == [x] + s
  {
    assert ([x] + s)[1..] == s;
  }

  lemma SortedAlready(a: TreeNode, b: TreeNode, c: TreeNode)
    requires a.value >= b.value >= c.value
    ensures SortByKey([a, b, c], DescendingValue) == [a, b, c]
  {
    SortCons(c, []);
    SortCons(b, [c]);
    SortCons(a, [b, c]);
    assert [c] + [] == [c] && [b] + [c] == [b, c] && [a] + [b, c] == [a, b, c];
  }

  lemma NotPowers()
    ensures !IsPowerOfTwo(3) && !IsPowerOfTwo(5)
  {
    assert BitAnd(1, 1) == 1;
    assert BitAnd(2, 2) == 2;
    assert BitAnd(3, 2) == 2 && BitAnd(5, 4) == 4;
  }

  /* ---------- an exact amount ---------- */

  function SelectByExactAmount(leaves: seq<TreeNode>, target: nat): (r: Result<Option<seq<TreeNode>>, TreeServiceError>)
    ensures r.Ok? && r.value.Some? ==>
              multiset(r.value.value) <= multiset(leaves) && Total(r.value.value) == target
  {
    if target == 0 then Err(InvalidAmount)
    else if Total(leaves) < target then Err(InsufficientFunds)
    else
      match FindExactSingleMatch(leaves, target)
      case Some(leaf) =>
        assert leaf in multiset(leaves) && Total([leaf]) == target;
        Ok(Some([leaf]))
      case None =>
        match FindExactMultipleMatch(leaves, target)
        case Some(selected) => Ok(Some(selected))
        case None => Ok(None)
  }

  lemma {:induction false} SubsetWithinTotal(leaves: seq<TreeNode>, t: nat)
    requires SomeSubsetSums(leaves, t)
    ensures t <= Total(leaves)
  {
    if leaves != [] {
      if SomeSubsetSums(leaves[1..], t) {
        SubsetWithinTotal(leaves[1..], t);
      } else {
        SubsetWithinTotal(leaves[1..], t - leaves[0].value);
      }
    }
  }

  lemma {:induction false} OneLeafIsASubset(leaves: seq<TreeNode>, n: TreeNode)
    requires n in leaves
    ensures SomeSubsetSums(leaves, n.value)
  {
    if leaves[0] == n {
      NothingReachesZero(leaves[1..]);
    } else {
      OneLeafIsASubset(leaves[1..], n);
    }
  }

  /** On a divisibility chain, as with power-of-two leaves, an exact selection exists exactly when some subset makes
      the amount. */
  lemma ExactAmountComplete(leaves: seq<TreeNode>, t: nat)
    requires t > 0 && DivisibilityChain(leaves)
    ensures var r := SelectByExactAmount(leaves, t);
            (r.Ok? && r.value.Some?) <==> SomeSubsetSums(leaves, t)
  {
    ExactMatchBounds(leaves, t);
    if SomeSubsetSums(leaves, t) {
      SubsetWithinTotal(leaves, t);
    } else {
      var single := FindExactSingleMatch(leaves, t);
      if single.Some? {
        OneLeafIsASubset(leaves, single.value);
      }
    }
  }

  /* ---------- exact denominations ---------- */

  function Values(leaves: seq<TreeNode>): (r: seq<nat>)
    ensures |r| == |leaves|
  {
    if leaves == [] then [] else [leaves[0].value] + Values(leaves[1..])
  }

  function Denominations(leaves: seq<TreeNode>, wanted: seq<nat>): Result<seq<TreeNode>, TreeServiceError>
    decreases wanted
  {
    if wanted == [] then Ok([])
    else
      match FindExactSingleMatch(leaves, wanted[0])
      case None => Err(UnselectableAmount)
      case Some(leaf) =>
        match Denominations(Without(leaves, {leaf.id}), wanted[1..])
        case Err(e) => Err(e)
        case Ok(more) => Ok([leaf] + more)
  }

  ghost function PrependOk(taken: seq<TreeNode>, more: Result<seq<TreeNode>, TreeServiceError>)
    : Result<seq<TreeNode>, TreeServiceError>
  {
    if more.Err? then more else Ok(taken + more.value)
  }

  method SelectByExactDenominations(leaves: seq<TreeNode>, denominations: seq<nat>)
    returns (r: Result<seq<TreeNode>, TreeServiceError>)
    ensures r == Denominations(leaves, denominations)
  {
    var remaining, selected: seq<TreeNode> := leaves, [];
    ghost var answer := Denominations(leaves, denominations);
    assert answer.Ok? ==> [] + answer.value == answer.value;
    assert denominations[0..] == denominations;
    for i := 0 to |denominations|
      invariant answer == PrependOk(selected, Denominations(remaining, denominations[i..]))
    {
      ghost var rest := denominations[i..];
      assert rest[0] == denominations[i] && rest[1..] == denominations[i + 1..];
      var found := FindExactSingleMatch(remaining, denominations[i]);
      if found.None? {
        return Err(UnselectableAmount);
      }
      ghost var more := Denominations(Without(remaining, {found.value.id}), denominations[i + 1..]);
      assert more.Ok? ==> selected + ([found.value] + more.value) == selected + [found.value] + more.value;
      selected := selected + [found.value];
      remaining := Without(remaining, {found.value.id});
    }
    assert selected + [] == selected;
    return Ok(selected);
  }

  lemma {:induction false} WithoutNothing(leaves: seq<TreeNode>, ids: set<LeafId>)
    requires forall n :: n in leaves ==> n.id !in ids
    ensures Without(leaves, ids) == leaves
  {
    if leaves != [] {
      assert leaves[0] in leaves;
      WithoutNothing(leaves[1..], ids);
    }
  }

  lemma {:induction false} RemoveOneLeaf(leaves: seq<TreeNode>, n: TreeNode)
    requires DistinctIds(leaves) && n in leaves
    ensures multiset(leaves) == multiset{n} + multiset(Without(leaves, {n.id}))
    ensures multiset(Values(leaves)) == multiset{n.value} + multiset(Values(Without(leaves, {n.id})))
  {
    var rest := leaves[1..];
    assert leaves == [leaves[0]] + rest;
    if leaves[0] == n {
      assert forall m :: m in rest ==> m.id != n.id;
      WithoutNothing(rest, {n.id});
    } else {
      var smaller := Without(rest, {n.id});
      RemoveOneLeaf(rest, n);
      assert Without(leaves, {n.id}) == [leaves[0]] + smaller;
      assert Values([leaves[0]] + smaller) == [leaves[0].value] + Values(smaller) by {
        assert ([leaves[0]] + smaller)[1..] == smaller;
      }
    }
  }

  lemma {:induction false} ValueOccurs(leaves: seq<TreeNode>, v: nat)
    ensures v in Values(leaves) <==> exists n :: n in leaves && n.value == v
  {
    if leaves != [] {
      ValueOccurs(leaves[1..], v);
      assert leaves[0] in leaves;
    }
  }

  lemma BagStep<T>(x: T, more: multiset<T>, bag: multiset<T>, rest: multiset<T>)
    requires bag == multiset{x} + rest
    ensures multiset{x} + more <= bag <==> more <= rest
  {
    if multiset{x} + more <= bag {
      assert forall y :: more[y] + (multiset{x})[y] == (multiset{x} + more)[y] <= bag[y];
    }
  }

  /** The denominations are found exactly when the leaves hold that bag of values;
      then the answer lists distinct leaves with those values in order. */
  lemma {:induction false} DenominationsExact(leaves: seq<TreeNode>, wanted: seq<nat>)
    requires DistinctIds(leaves)
    ensures var r := Denominations(leaves, wanted);
            && (r.Ok? <==> multiset(wanted) <= multiset(Values(leaves)))
            && (r.Ok? ==> Values(r.value) == wanted && multiset(r.value) <= multiset(leaves))
    decreases wanted
  {
    if wanted != [] {
      var d, later := wanted[0], wanted[1..];
      assert wanted == [d] + later;
      assert multiset(wanted) == multiset{d} + multiset(later);
      ValueOccurs(leaves, d);
      var found := FindExactSingleMatch(leaves, d);
      if found.None? {
        assert d in multiset(wanted) && d !in multiset(Values(leaves));
      } else {
        var smaller := Without(leaves, {found.value.id});
        RemoveOneLeaf(leaves, found.value);
        WithoutDistinct(leaves, {found.value.id});
        DenominationsExact(smaller, later);
        BagStep(d, multiset(later), multiset(Values(leaves)), multiset(Values(smaller)));
        var more := Denominations(smaller, later);
        if more.Ok? {
          var all := [found.value] + more.value;
          assert all[1..] == more.value;
          assert Values(all) == [d] + later;
          assert multiset(all) == multiset{found.value} + multiset(more.value);
        }
      }
    }
  }

  lemma {:induction false} TotalIsSumOfValues(leaves: seq<TreeNode>)
    ensures Total(leaves) == SumNats(Values(leaves))
  {
    if leaves != [] {
      TotalIsSumOfValues(leaves[1..]);
      assert Values(leaves)[1..] == Values(leaves[1..]);
    }
  }

  /* ---------- target amounts ---------- */

  function SelectByTargetAmounts(leaves: seq<TreeNode>, targets: Option<TargetAmounts>)
    : Result<TargetLeaves, TreeServiceError>
  {
    match targets
    case None => Ok(TargetLeaves(leaves, None))
    case Some(ExactDenominations(ds)) =>
      (match Denominations(leaves, ds)
       case Err(e) => Err(e)
       case Ok(selected) => Ok(TargetLeaves(selected, None)))
    case Some(AmountAndFee(amount, fee)) =>
      match SelectByExactAmount(leaves, amount)
      case Err(e) => Err(e)
      case Ok(None) => Err(UnselectableAmount)
      case Ok(Some(amountLeaves)) =>
        if fee.None? then Ok(TargetLeaves(amountLeaves, None))
        else
          match SelectByExactAmount(Without(leaves, Ids(amountLeaves)), fee.value)
          case Err(e) => Err(e)
          case Ok(None) => Err(UnselectableAmount)
          case Ok(Some(feeLeaves)) => Ok(TargetLeaves(amountLeaves, Some(feeLeaves)))
  }

  lemma {:induction false} DisjointBags(a: seq<TreeNode>, b: seq<TreeNode>, leaves: seq<TreeNode>)
    requires multiset(a) <= multiset(leaves) && multiset(b) <= multiset(leaves)
    requires forall n :: n in b ==> n !in a
    ensures multiset(a + b) <= multiset(leaves)
  {
    assert forall n :: n in multiset(b) ==> n in b;
  }

  lemma AmountAndFeeSound(leaves: seq<TreeNode>, a: seq<TreeNode>, b: seq<TreeNode>)
    requires multiset(a) <= multiset(leaves)
    requires multiset(b) <= multiset(Without(leaves, Ids(a)))
    ensures multiset(a + b) <= multiset(leaves) && Total(a + b) == Total(a) + Total(b)
  {
    var others := Without(leaves, Ids(a));
    WithoutMembers(leaves, Ids(a));
    WithoutBag(leaves, Ids(a));
    forall n | n in b ensures n !in a {
      assert n in multiset(b) && n in multiset(others);
    }
    DisjointBags(a, b, leaves);
    TotalAppend(a, b);
  }

  /** Whatever is selected is a bag of the given leaves: never a leaf twice, and amount and fee never share one.
      With a target its value is exactly the target. */
  lemma TargetSelectionSound(leaves: seq<TreeNode>, targets: Option<TargetAmounts>)
    requires DistinctIds(leaves)
    ensures var r := SelectByTargetAmounts(leaves, targets);
            r.Ok? ==>
              && multiset(r.value.All()) <= multiset(leaves)
              && DistinctIds(r.value.All())
              && (targets.Some? ==> Total(r.value.All()) == TotalSats(targets))
              && (targets.None? ==> r.value.All() == leaves)
  {
    var r := SelectByTargetAmounts(leaves, targets);
    if r.Ok? {
      var a := r.value.amountLeaves;
      assert a + [] == a;
      if targets.Some? {
        if targets.value.ExactDenominations? {
          DenominationsExact(leaves, targets.value.denominations);
          TotalIsSumOfValues(a);
        } else if targets.value.feeSats.Some? {
          AmountAndFeeSound(leaves, a, r.value.feeLeaves.value);
        }
      }
      DistinctSubBag(r.value.All(), leaves);
    }
  }

  /* ---------- amount and fee together ---------- */

  lemma {:induction false} WithoutSame(s: seq<TreeNode>, x: set<LeafId>, y: set<LeafId>)
    requires forall n :: n in s ==> (n.id in x <==> n.id in y)
    ensures Without(s, x) == Without(s, y)
  {
    if s != [] {
      assert s[0] in s;
      WithoutSame(s[1..], x, y);
    }
  }

  lemma {:induction false} WithoutTwice(s: seq<TreeNode>, x: set<LeafId>, y: set<LeafId>)
    ensures Without(Without(s, x), y) == Without(s, x + y)
  {
    if s != [] {
      WithoutTwice(s[1..], x, y);
    }
  }

  /** Taking one leaf out to the front changes no sums. */
  lemma {:induction false} RemoveKeepsSums(leaves: seq<TreeNode>, n: TreeNode)
    requires DistinctIds(leaves) && n in leaves
    ensures SameSums(leaves, [n] + Without(leaves, {n.id}))
  {
    var m, rest := leaves[0], leaves[1..];
    assert leaves == [m] + rest;
    if m == n {
      assert forall k :: k in rest ==> k.id != n.id;
      WithoutNothing(rest, {n.id});
    } else {
      var others := Without(rest, {n.id});
      RemoveKeepsSums(rest, n);
      SameSumsCons(m, rest, [n] + others);
      SameSumsSwap(n, m, others);
      assert m.id != n.id;
      assert Without(leaves, {n.id}) == [m] + others;
    }
  }

  /** A leaf worth `a` can always be taken for `a`: if two disjoint subsets make `a` and `b`, the others make `b`. */
  lemma SingleLeavesTheRest(leaves: seq<TreeNode>, n: TreeNode, b: nat)
    requires DistinctIds(leaves) && n in leaves && DisjointSubsetsSum(leaves, n.value, b)
    ensures SomeSubsetSums(Without(leaves, {n.id}), b)
  {
    var others := Without(leaves, {n.id});
    RemoveKeepsSums(leaves, n);
    SumsCons(n, others, n.value, b);
    HeadMakesAll(others, n.value, b);
  }

  lemma OthersDiffer(leaves: seq<TreeNode>)
    requires DistinctIds(leaves) && leaves != []
    ensures DistinctIds(leaves[1..]) && forall k :: k in leaves[1..] ==> k.id != leaves[0].id
  {
  }

  lemma {:induction false} LeftIsWithout(leaves: seq<TreeNode>, a: nat)
    requires DistinctIds(leaves) && Greedy(leaves, a).Some?
    ensures GreedyLeft(leaves, a) == Without(leaves, Ids(Greedy(leaves, a).value))
  {
    var leaf, rest := leaves[0], leaves[1..];
    OthersDiffer(leaves);
    if leaf.value > a {
      LeftIsWithout(rest, a);
      var chosen := Greedy(rest, a).value;
      DistinctSubBag(chosen, rest);
      forall n | n in chosen ensures n.id != leaf.id { assert n in rest; }
      assert leaf.id !in Ids(chosen);
    } else if leaf.value == a {
      WithoutNothing(rest, {leaf.id});
      assert Ids([leaf]) == {leaf.id};
    } else {
      var more := Greedy(rest, a - leaf.value).value;
      LeftIsWithout(rest, a - leaf.value);
      IdsCons(leaf, more);
      WithoutSame(rest, {leaf.id} + Ids(more), Ids(more));
    }
  }

  lemma IdsCons(n: TreeNode, more: seq<TreeNode>)
    ensures Ids([n] + more) == {n.id} + Ids(more)
  {
  }

  lemma WithoutCons(x: TreeNode, s: seq<TreeNode>, ids: set<LeafId>)
    ensures Without([x] + s, ids) == (if x.id in ids then [] else [x]) + Without(s, ids)
  {
    assert ([x] + s)[1..] == s;
    assert [] + Without(s, ids) == Without(s, ids);
  }

  lemma InsertFirst(x: TreeNode, s: seq<TreeNode>)
    requires forall n :: n in s ==> DescendingValue(x) <= DescendingValue(n)
    ensures InsertByKey(x, s, DescendingValue) == [x] + s
  {
  }

  lemma {:induction false} InsertThenWithout(x: TreeNode, s: seq<TreeNode>, ids: set<LeafId>)
    requires SortedBy(s, DescendingValue)
    ensures Without(InsertByKey(x, s, DescendingValue), ids)
         == if x.id in ids then Without(s, ids) else InsertByKey(x, Without(s, ids), DescendingValue)
  {
    WithoutMembers(s, ids);
    if s == [] || DescendingValue(x) <= DescendingValue(s[0]) {
      InsertFirst(x, s);
      InsertFirst(x, Without(s, ids));
      WithoutCons(x, s, ids);
    } else {
      var r := InsertByKey(x, s[1..], DescendingValue);
      InsertThenWithout(x, s[1..], ids);
      WithoutCons(s[0], r, ids);
      assert s[0].id !in ids ==> ([s[0]] + Without(s[1..], ids))[1..] == Without(s[1..], ids);
    }
  }

  /** Sorting and removing commute. */
  lemma {:induction false} SortThenWithout(s: seq<TreeNode>, ids: set<LeafId>)
    ensures Without(SortByKey(s, DescendingValue), ids) == SortByKey(Without(s, ids), DescendingValue)
  {
    if s != [] {
      var rest := Without(s[1..], ids);
      SortThenWithout(s[1..], ids);
      InsertThenWithout(s[0], SortByKey(s[1..], DescendingValue), ids);
      assert ([s[0]] + rest)[1..] == rest;
    }
  }

  /** On a divisibility chain the exact selection of `a` spoils nothing: if two disjoint subsets make `a` and `b`,
      the leaves that are not selected still make `b`. */
  lemma AmountLeavesTheFee(leaves: seq<TreeNode>, a: nat, b: nat)
    requires DistinctIds(leaves) && DivisibilityChain(leaves) && a > 0 && DisjointSubsetsSum(leaves, a, b)
    ensures var r := SelectByExactAmount(leaves, a);
            r.Ok? && r.value.Some? && SomeSubsetSums(Without(leaves, Ids(r.value.value)), b)
  {
    EitherAndBoth(leaves, a, b);
    ExactAmountComplete(leaves, a);
    var single, chosen := FindExactSingleMatch(leaves, a), SelectByExactAmount(leaves, a).value.value;
    if single.Some? {
      SingleLeavesTheRest(leaves, single.value, b);
      assert Ids([single.value]) == {single.value.id};
    } else {
      var sorted := SortByKey(leaves, DescendingValue);
      PermutationMembers(sorted, leaves);
      DistinctSubBag(sorted, leaves);
      SortKeepsSubsets(leaves);
      GreedyCompleteOnSorted(sorted, a, b);
      LeftIsWithout(sorted, a);
      SortThenWithout(leaves, Ids(chosen));
      SortKeepsSubsets(Without(leaves, Ids(chosen)));
      SameSubsets(Without(sorted, Ids(chosen)), Without(leaves, Ids(chosen)), b);
    }
  }

  lemma BagRest(n: TreeNode, more: seq<TreeNode>, leaves: seq<TreeNode>)
    requires DistinctIds(leaves) && multiset([n] + more) <= multiset(leaves)
    ensures n in leaves && multiset(more) <= multiset(Without(leaves, {n.id}))
  {
    assert n in multiset([n] + more) && n in multiset(leaves);
    RemoveOneLeaf(leaves, n);
    BagStep(n, multiset(more), multiset(leaves), multiset(Without(leaves, {n.id})));
  }

  lemma {:induction false} PartsAreDisjointSubsets(leaves: seq<TreeNode>, chosen: seq<TreeNode>, b: nat)
    requires DistinctIds(leaves) && multiset(chosen) <= multiset(leaves)
    requires SomeSubsetSums(Without(leaves, Ids(chosen)), b)
    ensures DisjointSubsetsSum(leaves, Total(chosen), b)
    decreases chosen
  {
    if chosen == [] {
      WithoutNothing(leaves, Ids(chosen));
      OneSubset(leaves, b);
    } else {
      var n, more := chosen[0], chosen[1..];
      var others := Without(leaves, {n.id});
      assert chosen == [n] + more;
      BagRest(n, more, leaves);
      WithoutDistinct(leaves, {n.id});
      IdsCons(n, more);
      WithoutTwice(leaves, {n.id}, Ids(more));
      PartsAreDisjointSubsets(others, more, b);
      RemoveKeepsSums(leaves, n);
      SumsCons(n, others, Total(chosen), b);
    }
  }

  /** On a divisibility chain an amount, or an amount and a fee, is selected exactly when they are positive and one
      subset makes the amount, or two disjoint subsets make the two. */
  lemma AmountAndFeeComplete(leaves: seq<TreeNode>, a: nat, fee: Option<nat>)
    requires DistinctIds(leaves) && DivisibilityChain(leaves)
    ensures SelectByTargetAmounts(leaves, Some(AmountAndFee(a, fee))).Ok?
       <==> a > 0 && if fee.None? then SomeSubsetSums(leaves, a)
                     else fee.value > 0 && DisjointSubsetsSum(leaves, a, fee.value)
  {
    if a > 0 {
      ExactAmountComplete(leaves, a);
      if fee.Some? && fee.value > 0 {
        if DisjointSubsetsSum(leaves, a, fee.value) {
          AmountLeavesTheFee(leaves, a, fee.value);
        }
        var first := SelectByExactAmount(leaves, a);
        if first.Ok? && first.value.Some? {
          var others := Without(leaves, Ids(first.value.value));
          WithoutMembers(leaves, Ids(first.value.value));
          ExactAmountComplete(others, fee.value);
          if SomeSubsetSums(others, fee.value) {
            PartsAreDisjointSubsets(leaves, first.value.value, fee.value);
          }
        }
      }
    }
  }

  /* ---------- a minimum amount ---------- */

  /** The length of the shortest prefix worth at least `target`. */
  function ShortestPrefix(leaves: seq<TreeNode>, target: nat): (k: nat)
    requires 0 < target <= Total(leaves)
    ensures 0 < k <= |leaves|
    ensures Total(leaves[..k]) >= target
    ensures forall j :: 0 <= j < k ==> Total(leaves[..j]) < target
  {
    var head, rest := leaves[0].value, leaves[1..];
    if head >= target then
      assert leaves[..1][1..] == [];
      1
    else
      var k := 1 + ShortestPrefix(rest, target - head);
      assert forall j :: 1 <= j <= k ==> leaves[..j][1..] == rest[..j - 1];
      assert forall j :: 1 <= j <= k ==> Total(leaves[..j]) == head + Total(rest[..j - 1]);
      k
  }

  function MinimumAmount(leaves: seq<TreeNode>, target: nat): Result<Option<seq<TreeNode>>, TreeServiceError> {
    if target == 0 then Err(InvalidAmount)
    else if Total(leaves) < target then Err(InsufficientFunds)
    else Ok(Some(leaves[..ShortestPrefix(leaves, target)]))
  }

  /** The loop takes leaves until the amount is reached; its final "not enough" answer never happens. */
  method SelectByMinimumAmount(leaves: seq<TreeNode>, target: nat)
    returns (r: Result<Option<seq<TreeNode>>, TreeServiceError>)
    ensures r == MinimumAmount(leaves, target)
  {
    if target == 0 {
      return Err(InvalidAmount);
    }
    if Total(leaves) < target {
      return Err(InsufficientFunds);
    }
    var result: seq<TreeNode>, sum := [], 0;
    ghost var k := ShortestPrefix(leaves, target);
    for i := 0 to |leaves|
      invariant result == leaves[..i] && sum == Total(leaves[..i])
      invariant i <= k && sum < target
    {
      assert leaves[..i + 1] == leaves[..i] + [leaves[i]];
      TotalAppend(leaves[..i], [leaves[i]]);
      sum := sum + leaves[i].value;
      result := result + [leaves[i]];
      if sum >= target {
        break;
      }
    }
    assert leaves[..|leaves|] == leaves;
    if sum < target {
      return Ok(None);
    }
    return Ok(Some(result));
  }
}

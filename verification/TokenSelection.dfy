/** Greedy choice of token outputs inside reserve_token_outputs (crates/spark-postgres/src/token_store.rs). */
module TokenSelection {
  import opened Prelude

  type OutputId = string

  datatype TokenOutput = TokenOutput(id: OutputId, amount: nat, body: string)

  datatype ReservationTarget = MinTotalValue(amount: nat) | MaxOutputCount(count: nat)

  datatype SelectionStrategy = SmallestFirst | LargestFirst

  datatype TokenError = InsufficientFunds | ZeroTarget | TokenNotFound | DatabaseError

  function Ascending(o: TokenOutput): int { o.amount }

  function Descending(o: TokenOutput): int { -(o.amount as int) }

  function KeyOf(strategy: Option<SelectionStrategy>): TokenOutput -> int {
    if strategy == Some(LargestFirst) then Descending else Ascending
  }

  function Amount(outputs: seq<TokenOutput>): nat {
    if outputs == [] then 0 else outputs[0].amount + Amount(outputs[1..])
  }

  function FindExact(outputs: seq<TokenOutput>, amount: nat): (r: Option<TokenOutput>)
    ensures r.Some? ==> r.value in outputs && r.value.amount == amount
    ensures r.None? <==> forall o :: o in outputs ==> o.amount != amount
  {
    if outputs == [] then None
    else if outputs[0].amount == amount then Some(outputs[0])
    else FindExact(outputs[1..], amount)
  }

  /** The length of the shortest prefix worth at least `amount`; the whole list when none is. */
  function PrefixLength(outputs: seq<TokenOutput>, amount: nat): (k: nat)
    ensures k <= |outputs|
    ensures forall j :: 0 <= j < k ==> Amount(outputs[..j]) < amount
    ensures Amount(outputs) >= amount ==> Amount(outputs[..k]) >= amount
    ensures Amount(outputs) < amount ==> k == |outputs|
    ensures k == 0 <==> amount == 0 || outputs == []
  {
    if amount == 0 || outputs == [] then 0
    else
      var head, rest := outputs[0].amount, outputs[1..];
      var k := 1 + PrefixLength(rest, if amount > head then amount - head else 0);
      assert forall j :: 1 <= j <= k ==> outputs[..j][1..] == rest[..j - 1];
      assert forall j :: 1 <= j <= k ==> Amount(outputs[..j]) == head + Amount(rest[..j - 1]);
      k
  }

  function Truncate(outputs: seq<TokenOutput>, count: nat): seq<TokenOutput> {
    if |outputs| <= count then outputs else outputs[..count]
  }

  function Chosen(outputs: seq<TokenOutput>, target: ReservationTarget, strategy: Option<SelectionStrategy>)
    : Result<seq<TokenOutput>, TokenError>
  {
    var sorted := SortByKey(outputs, KeyOf(strategy));
    match target
    case MaxOutputCount(count) => Ok(Truncate(sorted, count))
    case MinTotalValue(amount) =>
      if Amount(outputs) < amount then Err(InsufficientFunds)
      else
        match FindExact(outputs, amount)
        case Some(o) => Ok([o])
        case None => Ok(sorted[..PrefixLength(sorted, amount)])
  }

  lemma AmountAppend(a: seq<TokenOutput>, b: seq<TokenOutput>)
    ensures Amount(a + b) == Amount(a) + Amount(b)
  {
    if a == [] {
      assert a + b == b;
    } else {
      assert (a + b)[1..] == a[1..] + b;
    }
  }

  lemma BagWithout(s: seq<TokenOutput>, i: nat)
    requires i < |s|
    ensures multiset(s[..i] + s[i + 1..]) == multiset(s) - multiset{s[i]}
  {
    assert s == s[..i] + [s[i]] + s[i + 1..];
  }

  lemma {:induction false} AmountWithout(s: seq<TokenOutput>, i: nat)
    requires i < |s|
    ensures Amount(s) == s[i].amount + Amount(s[..i] + s[i + 1..])
  {
    if i == 0 {
      assert s[..0] + s[1..] == s[1..];
    } else {
      AmountWithout(s[1..], i - 1);
      assert (s[..i] + s[i + 1..])[1..] == s[1..][..i - 1] + s[1..][i..];
    }
  }

  lemma SameBagsWithout(a: seq<TokenOutput>, b: seq<TokenOutput>, i: nat)
    requires a != [] && multiset(a) == multiset(b) && i < |b| && b[i] == a[0]
    ensures multiset(a[1..]) == multiset(b[..i] + b[i + 1..])
  {
    BagWithout(a, 0);
    assert a[..0] + a[1..] == a[1..];
    BagWithout(b, i);
  }

  lemma {:induction false} AmountPermuted(a: seq<TokenOutput>, b: seq<TokenOutput>)
    requires multiset(a) == multiset(b)
    ensures Amount(a) == Amount(b)
  {
    if a == [] {
      assert |multiset(b)| == 0;
      assert b == [];
    } else {
      assert a[0] in multiset(b);
      var i :| 0 <= i < |b| && b[i] == a[0];
      SameBagsWithout(a, b, i);
      AmountWithout(b, i);
      AmountPermuted(a[1..], b[..i] + b[i + 1..]);
    }
  }

  /** Takes outputs while something is missing. */
  method TakePrefix(outputs: seq<TokenOutput>, amount: nat) returns (selected: seq<TokenOutput>, remaining: nat)
    ensures selected == outputs[..PrefixLength(outputs, amount)]
    ensures remaining == if Amount(selected) < amount then amount - Amount(selected) else 0
  {
    selected, remaining := [], amount;
    ghost var k := PrefixLength(outputs, amount);
    for i := 0 to |outputs|
      invariant i <= k && selected == outputs[..i]
      invariant remaining == if Amount(selected) < amount then amount - Amount(selected) else 0
    {
      if remaining == 0 {
        break;
      }
      assert outputs[..i + 1] == selected + [outputs[i]];
      AmountAppend(selected, [outputs[i]]);
      selected := selected + [outputs[i]];
      remaining := if remaining > outputs[i].amount then remaining - outputs[i].amount else 0;
    }
  }

  /** The selection of the source. Its closing InsufficientFunds branch is unreachable after the sum check:
      the answer is an error only when all candidates together fall short. */
  method SelectOutputs(candidates: seq<TokenOutput>, target: ReservationTarget, strategy: Option<SelectionStrategy>)
    returns (r: Result<seq<TokenOutput>, TokenError>)
    ensures r == Chosen(candidates, target, strategy)
    ensures r.Err? <==> target.MinTotalValue? && Amount(candidates) < target.amount
  {
    var outputs := candidates;
    if target.MinTotalValue? && Amount(outputs) < target.amount {
      return Err(InsufficientFunds);
    }
    if target.MinTotalValue? {
      var exact := FindExact(outputs, target.amount);
      if exact.Some? {
        return Ok([exact.value]);
      }
    }
    outputs := SortByKey(outputs, KeyOf(strategy));
    AmountPermuted(outputs, candidates);
    match target
    case MaxOutputCount(count) =>
      return Ok(Truncate(outputs, count));
    case MinTotalValue(amount) =>
      var selected, remaining := TakePrefix(outputs, amount);
      if remaining > 0 {
        return Err(InsufficientFunds);
      }
      return Ok(selected);
  }

  /* ---------- optimality ---------- */

  function SumKey(s: seq<TokenOutput>, key: TokenOutput -> int): int {
    if s == [] then 0 else key(s[0]) + SumKey(s[1..], key)
  }

  lemma {:induction false} SumKeyRemove(s: seq<TokenOutput>, i: nat, key: TokenOutput -> int)
    requires i < |s|
    ensures SumKey(s, key) == key(s[i]) + SumKey(s[..i] + s[i + 1..], key)
  {
    if i == 0 {
      assert s[..0] + s[1..] == s[1..];
    } else {
      SumKeyRemove(s[1..], i - 1, key);
      assert (s[..i] + s[i + 1..])[1..] == s[1..][..i - 1] + s[1..][i..];
    }
  }

  /** In an ascending list a prefix of the tail weighs no less than the prefix one place earlier. */
  lemma {:induction false} PrefixGrows(s: seq<TokenOutput>, k: nat, key: TokenOutput -> int)
    requires SortedBy(s, key) && k < |s|
    ensures SumKey(s[..k], key) <= SumKey(s[1..][..k], key)
  {
    if k > 0 {
      assert s[..k][1..] == s[1..][..k - 1];
      assert s[1..][..k][1..] == s[1..][1..][..k - 1];
      assert s[1] in s[1..];
      PrefixGrows(s[1..], k - 1, key);
      assert s[..k][0] == s[0] && s[1..][..k][0] == s[1];
    }
  }

  lemma PrefixHead(s: seq<TokenOutput>, n: nat, key: TokenOutput -> int)
    requires 0 < n <= |s|
    ensures SumKey(s[..n], key) == key(s[0]) + SumKey(s[1..][..n - 1], key)
  {
    assert s[..n][1..] == s[1..][..n - 1];
  }

  lemma SubBagSize(sub: seq<TokenOutput>, s: seq<TokenOutput>)
    requires multiset(sub) <= multiset(s)
    ensures |sub| <= |s|
  {
    assert multiset(s) == multiset(sub) + (multiset(s) - multiset(sub));
    assert |multiset(sub)| == |sub| && |multiset(s)| == |s|;
  }

  lemma SubBagOfTail(sub: seq<TokenOutput>, s: seq<TokenOutput>)
    requires s != [] && multiset(sub) <= multiset(s)
    ensures s[0] !in sub ==> multiset(sub) <= multiset(s[1..])
    ensures forall i :: 0 <= i < |sub| && sub[i] == s[0] ==> multiset(sub[..i] + sub[i + 1..]) <= multiset(s[1..])
  {
    assert s == [s[0]] + s[1..];
    assert multiset(s[1..]) == multiset(s) - multiset{s[0]};
    forall i | 0 <= i < |sub| && sub[i] == s[0] ensures multiset(sub[..i] + sub[i + 1..]) <= multiset(s[1..]) {
      BagWithout(sub, i);
    }
    if s[0] !in sub {
      assert s[0] !in multiset(sub);
    }
  }

  /** Among all sub-collections of one size, the sorted prefix has the least key sum. */
  lemma {:induction false} PrefixIsLeast(s: seq<TokenOutput>, sub: seq<TokenOutput>, key: TokenOutput -> int)
    requires SortedBy(s, key) && multiset(sub) <= multiset(s)
    ensures |sub| <= |s| && SumKey(s[..|sub|], key) <= SumKey(sub, key)
  {
    SubBagSize(sub, s);
    if sub != [] {
      SubBagOfTail(sub, s);
      var n := |sub|;
      if i :| 0 <= i < n && sub[i] == s[0] {
        var less := sub[..i] + sub[i + 1..];
        assert |less| == n - 1;
        SumKeyRemove(sub, i, key);
        PrefixIsLeast(s[1..], less, key);
        PrefixHead(s, n, key);
      } else {
        PrefixIsLeast(s[1..], sub, key);
        PrefixGrows(s, n, key);
      }
    }
  }

  lemma KeySums(s: seq<TokenOutput>)
    ensures SumKey(s, Ascending) == Amount(s) && SumKey(s, Descending) == -(Amount(s) as int)
  {
  }

  lemma PrefixOfSorted(outputs: seq<TokenOutput>, key: TokenOutput -> int, k: nat)
    requires k <= |SortByKey(outputs, key)|
    ensures multiset(SortByKey(outputs, key)[..k]) <= multiset(outputs)
    ensures |SortByKey(outputs, key)| == |outputs|
  {
    var sorted := SortByKey(outputs, key);
    assert sorted == sorted[..k] + sorted[k..];
    assert |multiset(sorted)| == |multiset(outputs)|;
  }

  lemma CheapestPrefix(outputs: seq<TokenOutput>, sub: seq<TokenOutput>)
    requires multiset(sub) <= multiset(outputs)
    ensures |sub| <= |SortByKey(outputs, Ascending)|
    ensures Amount(SortByKey(outputs, Ascending)[..|sub|]) <= Amount(sub)
  {
    var sorted := SortByKey(outputs, Ascending);
    PrefixIsLeast(sorted, sub, Ascending);
    KeySums(sub);
    KeySums(sorted[..|sub|]);
  }

  lemma DearestPrefix(outputs: seq<TokenOutput>, sub: seq<TokenOutput>)
    requires multiset(sub) <= multiset(outputs)
    ensures |sub| <= |SortByKey(outputs, Descending)|
    ensures Amount(sub) <= Amount(SortByKey(outputs, Descending)[..|sub|])
  {
    var sorted := SortByKey(outputs, Descending);
    PrefixIsLeast(sorted, sub, Descending);
    KeySums(sub);
    KeySums(sorted[..|sub|]);
  }

  /** Largest first never uses more outputs than necessary: no sub-collection of the candidates that reaches the
      amount is smaller than the one chosen, the exact-match shortcut included. */
  lemma LargestFirstUsesFewest(outputs: seq<TokenOutput>, amount: nat, sub: seq<TokenOutput>)
    requires amount > 0 && Amount(outputs) >= amount
    requires multiset(sub) <= multiset(outputs) && Amount(sub) >= amount
    ensures var r := Chosen(outputs, MinTotalValue(amount), Some(LargestFirst));
            && r.Ok? && Amount(r.value) >= amount
            && multiset(r.value) <= multiset(outputs)
            && |r.value| <= |sub|
  {
    var sorted := SortByKey(outputs, Descending);
    AmountPermuted(sorted, outputs);
    PrefixOfSorted(outputs, Descending, PrefixLength(sorted, amount));
    DearestPrefix(outputs, sub);
    var exact := FindExact(outputs, amount);
    if exact.Some? {
      assert exact.value in multiset(outputs);
      assert Amount([exact.value]) == amount;
    }
  }

  /** Smallest first (also the default) without an exact match: any choice of that many candidates would have
      sufficed, and the chosen ones short of the last do not. */
  lemma SmallestFirstUsesMost(outputs: seq<TokenOutput>, amount: nat, strategy: Option<SelectionStrategy>)
    requires amount > 0 && Amount(outputs) >= amount && strategy != Some(LargestFirst)
    requires FindExact(outputs, amount).None?
    ensures var r := Chosen(outputs, MinTotalValue(amount), strategy);
            && r.Ok? && r.value != [] && Amount(r.value) >= amount
            && multiset(r.value) <= multiset(outputs)
            && (forall sub: seq<TokenOutput> ::
                  multiset(sub) <= multiset(outputs) && |sub| == |r.value| ==> Amount(sub) >= amount)
            && Amount(r.value[..|r.value| - 1]) < amount
  {
    var sorted := SortByKey(outputs, Ascending);
    var k := PrefixLength(sorted, amount);
    AmountPermuted(sorted, outputs);
    PrefixOfSorted(outputs, Ascending, k);
    assert sorted[..k][..k - 1] == sorted[..k - 1];
    AnyThatManySuffice(outputs, k, amount);
  }

  lemma AnyThatManySuffice(outputs: seq<TokenOutput>, k: nat, amount: nat)
    requires k <= |SortByKey(outputs, Ascending)| && Amount(SortByKey(outputs, Ascending)[..k]) >= amount
    ensures forall sub: seq<TokenOutput> ::
              multiset(sub) <= multiset(outputs) && |sub| == k ==> Amount(sub) >= amount
  {
    forall sub: seq<TokenOutput> | multiset(sub) <= multiset(outputs) && |sub| == k ensures Amount(sub) >= amount {
      CheapestPrefix(outputs, sub);
    }
  }

  /** A bound on the number of outputs takes that many (or all), the most valuable ones under largest first,
      the least valuable ones otherwise. */
  lemma CountIsExtreme(outputs: seq<TokenOutput>, count: nat, strategy: Option<SelectionStrategy>,
                       sub: seq<TokenOutput>)
    requires multiset(sub) <= multiset(outputs)
    ensures var r := Chosen(outputs, MaxOutputCount(count), strategy);
            && r.Ok? && multiset(r.value) <= multiset(outputs)
            && |r.value| == (if |outputs| <= count then |outputs| else count)
            && (|sub| == |r.value| ==>
                  if strategy == Some(LargestFirst) then Amount(sub) <= Amount(r.value)
                   else Amount(r.value) <= Amount(sub))
  {
    var sorted := SortByKey(outputs, KeyOf(strategy));
    PrefixOfSorted(outputs, KeyOf(strategy), |sorted|);
    assert sorted[..|sorted|] == sorted;
    PrefixOfSorted(outputs, KeyOf(strategy), if |sorted| <= count then |sorted| else count);
    if strategy == Some(LargestFirst) {
      DearestPrefix(outputs, sub);
    } else {
      CheapestPrefix(outputs, sub);
    }
  }

  /** An output of exactly the amount is taken alone, the first of them; nothing else is looked at then. */
  lemma {:induction false} FirstExactWins(outputs: seq<TokenOutput>, amount: nat, strategy: Option<SelectionStrategy>,
                                          i: nat)
    requires i < |outputs| && outputs[i].amount == amount
    requires forall j :: 0 <= j < i ==> outputs[j].amount != amount
    ensures Chosen(outputs, MinTotalValue(amount), strategy) == Ok([outputs[i]])
  {
    FirstExact(outputs, amount, i);
    AmountWithout(outputs, i);
  }

  lemma {:induction false} FirstExact(outputs: seq<TokenOutput>, amount: nat, i: nat)
    requires i < |outputs| && outputs[i].amount == amount
    requires forall j :: 0 <= j < i ==> outputs[j].amount != amount
    ensures FindExact(outputs, amount) == Some(outputs[i])
  {
    if i > 0 {
      FirstExact(outputs[1..], amount, i - 1);
    }
  }

  /** The selection is refused exactly when all candidates together are worth less than the amount. */
  lemma RefusedIff(outputs: seq<TokenOutput>, target: ReservationTarget, strategy: Option<SelectionStrategy>)
    ensures Chosen(outputs, target, strategy).Err? <==> target.MinTotalValue? && Amount(outputs) < target.amount
    ensures Chosen(outputs, target, strategy).Err? ==> Chosen(outputs, target, strategy) == Err(InsufficientFunds)
  {
  }
}

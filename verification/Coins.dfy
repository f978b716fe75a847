/** Coin sets (types/coin.go).

  A coin set is a list sorted by denomination. The reference it must agree with is the total
  amount at each denomination, `Amount`. `DecCoins` uses the same merge with raw decimals. */
module Coins {
  import opened Common
  import opened Lex
  import opened Outcomes

  datatype Coin = Coin(denom: Bytes, amount: int)

  predicate Fits(x: int, limit: int) {
    -limit < x < limit
  }

  predicate Letter(b: byte) {
    65 <= b <= 90 || 97 <= b <= 122
  }

  /** The regular expression `[a-zA-Z][a-zA-Z0-9/-]{2,127}`, anchored at both ends. */
  predicate ValidDenom(d: Bytes) {
    && 3 <= |d| <= 128
    && Letter(d[0])
    && forall i :: 1 <= i < |d| ==> Letter(d[i]) || 48 <= d[i] <= 57 || d[i] == 47 || d[i] == 45
  }

  ghost predicate Ordered(cs: seq<Coin>) {
    forall i, j :: 0 <= i < j < |cs| ==> Less(cs[i].denom, cs[j].denom)
  }

  ghost predicate NoZero(cs: seq<Coin>) {
    forall i :: 0 <= i < |cs| ==> cs[i].amount != 0
  }

  /** What `Validate` accepts: sorted without duplicates, valid names, positive amounts. */
  ghost predicate Canonical(cs: seq<Coin>) {
    && Ordered(cs)
    && forall i :: 0 <= i < |cs| ==> ValidDenom(cs[i].denom) && cs[i].amount > 0
  }

  /** Every amount is a representable `Int` (or `Dec`). */
  ghost predicate AllFit(cs: seq<Coin>, limit: int) {
    forall i :: 0 <= i < |cs| ==> Fits(cs[i].amount, limit)
  }

  ghost function Denoms(cs: seq<Coin>): set<Bytes> {
    set i | 0 <= i < |cs| :: cs[i].denom
  }

  /** The reference meaning: how much of `d` the list holds. */
  function Amount(cs: seq<Coin>, d: Bytes): int {
    if cs == [] then 0
    else (if cs[0].denom == d then cs[0].amount else 0) + Amount(cs[1..], d)
  }

  lemma {:induction false} AmountAbsent(cs: seq<Coin>, d: Bytes)
    requires d !in Denoms(cs)
    ensures Amount(cs, d) == 0
  {
    if cs != [] {
      assert cs[0].denom in Denoms(cs);
      assert Denoms(cs[1..]) <= Denoms(cs) by {
        assert forall i :: 0 <= i < |cs[1..]| ==> cs[1..][i] == cs[i + 1];
      }
      AmountAbsent(cs[1..], d);
    }
  }

  lemma {:induction false} AmountAt(cs: seq<Coin>, i: nat)
    requires Ordered(cs) && i < |cs|
    ensures Amount(cs, cs[i].denom) == cs[i].amount
  {
    var d := cs[i].denom;
    if i == 0 {
      forall k | 0 <= k < |cs[1..]| ensures cs[1..][k].denom != d {
        LessAsymmetric(d, cs[k + 1].denom);
      }
      AmountAbsent(cs[1..], d);
    } else {
      LessAsymmetric(cs[0].denom, d);
      AmountAt(cs[1..], i - 1);
    }
  }

  lemma {:induction false} AmountConcat(s: seq<Coin>, t: seq<Coin>, d: Bytes)
    ensures Amount(s + t, d) == Amount(s, d) + Amount(t, d)
  {
    if s == [] {
      assert s + t == t;
    } else {
      assert (s + t)[1..] == s[1..] + t;
      AmountConcat(s[1..], t, d);
    }
  }

  lemma AmountOfCanonical(cs: seq<Coin>, d: Bytes)
    requires Canonical(cs)
    ensures Amount(cs, d) >= 0
    ensures Amount(cs, d) > 0 <==> d in Denoms(cs)
  {
    if d in Denoms(cs) {
      var i :| 0 <= i < |cs| && cs[i].denom == d;
      AmountAt(cs, i);
    } else {
      AmountAbsent(cs, d);
    }
  }

  /** Canonical lists with the same amounts are the same list. */
  lemma {:induction false} CanonicalUnique(a: seq<Coin>, b: seq<Coin>)
    requires Canonical(a) && Canonical(b)
    requires forall d :: Amount(a, d) == Amount(b, d)
    ensures a == b
  {
    if a == [] || b == [] {
      if b != [] { AmountAt(b, 0); }
      if a != [] { AmountAt(a, 0); }
    } else {
      SmallestAgrees(a, b);
      SmallestAgrees(b, a);
      Trichotomy(a[0].denom, b[0].denom);
      AmountAt(a, 0);
      AmountAt(b, 0);
      assert a[0] == b[0];
      forall d ensures Amount(a[1..], d) == Amount(b[1..], d) {
        assert Amount(a, d) == Amount(b, d);
      }
      CanonicalUnique(a[1..], b[1..]);
      assert a == [a[0]] + a[1..] && b == [b[0]] + b[1..];
    }
  }

  lemma SmallestAgrees(a: seq<Coin>, b: seq<Coin>)
    requires Canonical(a) && Canonical(b) && a != [] && b != []
    requires forall d :: Amount(a, d) == Amount(b, d)
    ensures !Less(a[0].denom, b[0].denom)
  {
    if Less(a[0].denom, b[0].denom) {
      forall k | 0 <= k < |b| ensures b[k].denom != a[0].denom {
        if k > 0 { LessTransitive(a[0].denom, b[0].denom, b[k].denom); }
        LessAsymmetric(a[0].denom, b[k].denom);
      }
      AmountAbsent(b, a[0].denom);
      AmountAt(a, 0);
    }
  }

  // ---------------------------------------------------------------- Validate

  /** `Coins.Validate` compares each coin only with the one before it. */
  method Validate(coins: seq<Coin>) returns (valid: bool)
    ensures valid <==> Canonical(coins)
    decreases |coins|
  {
    if |coins| == 0 {
      return true;
    } else if |coins| == 1 {
      return ValidDenom(coins[0].denom) && coins[0].amount > 0;
    }
    var first := Validate([coins[0]]);
    assert coins[0] == [coins[0]][0];
    if !first {
      return false;
    }
    var low := coins[0].denom;
    var seen := {low};
    var k := 1;
    while k < |coins|
      invariant 1 <= k <= |coins|
      invariant low == coins[k - 1].denom
      invariant seen == set i | 0 <= i < k :: coins[i].denom
      invariant forall i, j :: 0 <= i < j < k ==> Less(coins[i].denom, coins[j].denom)
      invariant forall i :: 0 <= i < k ==> ValidDenom(coins[i].denom) && coins[i].amount > 0
    {
      var coin := coins[k];
      LessIrreflexive(coin.denom);
      if coin.denom in seen {
        return false;
      }
      if !ValidDenom(coin.denom) {
        return false;
      }
      if Leq(coin.denom, low) {
        Trichotomy(low, coin.denom);
        return false;
      }
      if coin.amount <= 0 {
        return false;
      }
      Trichotomy(low, coin.denom);
      forall i | 0 <= i < k ensures Less(coins[i].denom, coin.denom) {
        if i < k - 1 { LessTransitive(coins[i].denom, low, coin.denom); }
      }
      low := coin.denom;
      seen := seen + {coin.denom};
      k := k + 1;
    }
    return true;
  }

  // ---------------------------------------------------------------- removeZeroCoins, negative

  function NonZero(cs: seq<Coin>): (r: seq<Coin>) {
    if cs == [] then []
    else (if cs[0].amount == 0 then [] else [cs[0]]) + NonZero(cs[1..])
  }

  lemma {:induction false} NonZeroAmount(cs: seq<Coin>, d: Bytes)
    ensures Amount(NonZero(cs), d) == Amount(cs, d)
  {
    if cs != [] {
      NonZeroAmount(cs[1..], d);
      AmountConcat(if cs[0].amount == 0 then [] else [cs[0]], NonZero(cs[1..]), d);
    }
  }

  /** Every denomination of the list comes after `x`. */
  ghost predicate Above(x: Bytes, cs: seq<Coin>) {
    forall i :: 0 <= i < |cs| ==> Less(x, cs[i].denom)
  }

  lemma {:induction false} NonZeroAbove(cs: seq<Coin>, x: Bytes)
    requires Above(x, cs)
    ensures Above(x, NonZero(cs))
  {
    hide Less;
    if cs != [] {
      NonZeroAbove(cs[1..], x);
    }
  }

  lemma OrderedPrepend(c: Coin, rest: seq<Coin>)
    requires Ordered(rest) && NoZero(rest) && Above(c.denom, rest)
    ensures Ordered([c] + rest) && (c.amount != 0 ==> NoZero([c] + rest))
  {
    hide Less;
  }

  lemma {:induction false} NonZeroOrdered(cs: seq<Coin>)
    requires Ordered(cs)
    ensures Ordered(NonZero(cs)) && NoZero(NonZero(cs))
  {
    hide Less;
    if cs != [] {
      NonZeroOrdered(cs[1..]);
      assert Above(cs[0].denom, cs[1..]);
      NonZeroAbove(cs[1..], cs[0].denom);
      hide Ordered, NoZero, Above;
      OrderedPrepend(cs[0], NonZero(cs[1..]));
      assert [] + NonZero(cs[1..]) == NonZero(cs[1..]);
    }
  }

  lemma {:induction false} NonZeroAt(cs: seq<Coin>, i: nat) returns (k: nat)
    requires i < |NonZero(cs)|
    ensures k < |cs| && cs[k] == NonZero(cs)[i]
  {
    var skip := if cs[0].amount == 0 then 0 else 1;
    if i < skip {
      k := 0;
    } else {
      var j := NonZeroAt(cs[1..], i - skip);
      k := j + 1;
    }
  }

  lemma {:induction false} NonZeroIdentity(cs: seq<Coin>)
    requires NoZero(cs)
    ensures NonZero(cs) == cs
  {
    if cs != [] {
      NonZeroIdentity(cs[1..]);
      assert cs == [cs[0]] + cs[1..];
    }
  }

  lemma {:induction false} NonZeroSnoc(cs: seq<Coin>, c: Coin)
    ensures NonZero(cs + [c]) == NonZero(cs) + (if c.amount == 0 then [] else [c])
  {
    if cs == [] {
      assert cs + [c] == [c];
    } else {
      assert (cs + [c])[0] == cs[0] && (cs + [c])[1..] == cs[1..] + [c];
      NonZeroSnoc(cs[1..], c);
    }
  }

  method RemoveZeroCoins(coins: seq<Coin>) returns (result: seq<Coin>)
    ensures result == NonZero(coins)
  {
    var i := 0;
    while i < |coins|
      invariant 0 <= i <= |coins|
      invariant i < |coins| || |coins| == 0
      invariant NoZero(coins[..i])
    {
      if coins[i].amount == 0 {
        break;
      } else if i == |coins| - 1 {
        NonZeroIdentity(coins);
        return coins;
      }
      i := i + 1;
    }
    result := [];
    for k := 0 to |coins|
      invariant result == NonZero(coins[..k])
    {
      NonZeroSnoc(coins[..k], coins[k]);
      assert coins[..k + 1] == coins[..k] + [coins[k]];
      if coins[k].amount != 0 {
        result := result + [coins[k]];
      }
    }
    assert coins[..|coins|] == coins;
  }

  function Negated(cs: seq<Coin>): (r: seq<Coin>)
    ensures |r| == |cs|
    ensures forall i :: 0 <= i < |cs| ==> r[i] == Coin(cs[i].denom, -cs[i].amount)
  {
    seq(|cs|, i requires 0 <= i < |cs| => Coin(cs[i].denom, -cs[i].amount))
  }

  lemma {:induction false} NegatedAmount(cs: seq<Coin>, d: Bytes)
    ensures Amount(Negated(cs), d) == -Amount(cs, d)
  {
    if cs != [] {
      assert Negated(cs)[1..] == Negated(cs[1..]);
      NegatedAmount(cs[1..], d);
    }
  }

  method Negative(coins: seq<Coin>) returns (res: seq<Coin>)
    ensures res == Negated(coins)
  {
    res := [];
    for k := 0 to |coins|
      invariant |res| == k
      invariant forall i :: 0 <= i < k ==> res[i] == Coin(coins[i].denom, -coins[i].amount)
    {
      res := res + [Coin(coins[k].denom, -coins[k].amount)];
    }
  }

  // ---------------------------------------------------------------- safeAdd

  function Front(c: Coin, rest: Outcome<seq<Coin>>): Outcome<seq<Coin>> {
    if rest.Panic? then Panic
    else Value((if c.amount == 0 then [] else [c]) + rest.value)
  }

  /** The merge of `safeAdd`. It panics when the sum of two equal denominations overflows. */
  function Merge(a: seq<Coin>, b: seq<Coin>, limit: int): Outcome<seq<Coin>>
    decreases |a| + |b|
  {
    if a == [] then Value(NonZero(b))
    else if b == [] then Value(NonZero(a))
    else if Less(a[0].denom, b[0].denom) then Front(a[0], Merge(a[1..], b, limit))
    else if a[0].denom == b[0].denom then
      var sum := a[0].amount + b[0].amount;
      if !Fits(sum, limit) then Panic
      else Front(Coin(a[0].denom, sum), Merge(a[1..], b[1..], limit))
    else Front(b[0], Merge(a, b[1..], limit))
  }

  lemma FrontAmount(c: Coin, rest: seq<Coin>, d: Bytes)
    ensures Amount(Front(c, Value(rest)).value, d)
         == (if c.denom == d then c.amount else 0) + Amount(rest, d)
  {
    AmountConcat(if c.amount == 0 then [] else [c], rest, d);
  }

  /** Addition conserves every denomination, whatever the two lists are. */
  lemma {:induction false} MergeAmount(a: seq<Coin>, b: seq<Coin>, limit: int, d: Bytes)
    requires Merge(a, b, limit).Value?
    ensures Amount(Merge(a, b, limit).value, d) == Amount(a, d) + Amount(b, d)
    decreases |a| + |b|
  {
    if a == [] {
      NonZeroAmount(b, d);
    } else if b == [] {
      NonZeroAmount(a, d);
    } else if Less(a[0].denom, b[0].denom) {
      MergeAmount(a[1..], b, limit, d);
      FrontAmount(a[0], Merge(a[1..], b, limit).value, d);
    } else if a[0].denom == b[0].denom {
      MergeAmount(a[1..], b[1..], limit, d);
      FrontAmount(Coin(a[0].denom, a[0].amount + b[0].amount), Merge(a[1..], b[1..], limit).value, d);
    } else {
      MergeAmount(a, b[1..], limit, d);
      FrontAmount(b[0], Merge(a, b[1..], limit).value, d);
    }
  }

  lemma AboveTail(cs: seq<Coin>, x: Bytes)
    requires Ordered(cs) && cs != []
    requires x == cs[0].denom || Less(x, cs[0].denom)
    ensures Above(x, cs[1..]) && (Less(x, cs[0].denom) ==> Above(x, cs))
  {
    if x != cs[0].denom {
      forall i | 0 < i < |cs| ensures Less(x, cs[i].denom) {
        LessTransitive(x, cs[0].denom, cs[i].denom);
      }
    }
  }

  lemma OrderedFront(c: Coin, rest: seq<Coin>)
    requires Ordered(rest) && NoZero(rest) && Above(c.denom, rest)
    ensures Ordered(Front(c, Value(rest)).value) && NoZero(Front(c, Value(rest)).value)
  {
    hide Ordered, NoZero, Above;
    OrderedPrepend(c, rest);
    assert [] + rest == rest;
  }

  lemma FrontAbove(c: Coin, rest: Outcome<seq<Coin>>)
    requires Front(c, rest).Value?
    ensures forall x :: Less(x, c.denom) && Above(x, rest.value) ==> Above(x, Front(c, rest).value)
  {
    hide Less;
  }

  lemma OrderedParts(cs: seq<Coin>)
    requires Ordered(cs) && cs != []
    ensures Ordered(cs[1..])
    ensures forall x :: Above(x, cs) ==> Less(x, cs[0].denom) && Above(x, cs[1..])
  {
    hide Less;
  }

  lemma MergeWithNothing(a: seq<Coin>, b: seq<Coin>, limit: int)
    requires Ordered(a) && Ordered(b) && (a == [] || b == [])
    ensures Merge(a, b, limit).Value?
    ensures Ordered(Merge(a, b, limit).value) && NoZero(Merge(a, b, limit).value)
    ensures forall x :: Above(x, a) && Above(x, b) ==> Above(x, Merge(a, b, limit).value)
  {
    hide Less, Ordered, NoZero;
    var cs := if a == [] then b else a;
    NonZeroOrdered(cs);
    forall x | Above(x, a) && Above(x, b) ensures Above(x, NonZero(cs)) {
      NonZeroAbove(cs, x);
    }
  }

  /** The merge of sorted lists is sorted, has no zero coin and keeps every lower bound. */
  lemma {:induction false} MergeOrdered(a: seq<Coin>, b: seq<Coin>, limit: int)
    requires Ordered(a) && Ordered(b)
    requires Merge(a, b, limit).Value?
    ensures Ordered(Merge(a, b, limit).value) && NoZero(Merge(a, b, limit).value)
    ensures forall x :: Above(x, a) && Above(x, b) ==> Above(x, Merge(a, b, limit).value)
    decreases |a| + |b|
  {
    hide Less, Ordered, Above, NoZero, Front;
    if a == [] || b == [] {
      MergeWithNothing(a, b, limit);
    } else {
      OrderedParts(a);
      OrderedParts(b);
      var c, rest;
      if Less(a[0].denom, b[0].denom) {
        c, rest := a[0], Merge(a[1..], b, limit);
        FrontValue(c, rest);
        MergeOrdered(a[1..], b, limit);
      } else if a[0].denom == b[0].denom {
        c, rest := Coin(a[0].denom, a[0].amount + b[0].amount), Merge(a[1..], b[1..], limit);
        FrontValue(c, rest);
        MergeOrdered(a[1..], b[1..], limit);
      } else {
        Trichotomy(b[0].denom, a[0].denom);
        c, rest := b[0], Merge(a, b[1..], limit);
        FrontValue(c, rest);
        MergeOrdered(a, b[1..], limit);
      }
      AboveTail(a, c.denom);
      AboveTail(b, c.denom);
      OrderedFront(c, rest.value);
      FrontAbove(c, rest);
    }
  }

  lemma FrontValue(c: Coin, rest: Outcome<seq<Coin>>)
    ensures Front(c, rest).Value? ==> rest.Value? && Front(c, rest) == Front(c, Value(rest.value))
  {
  }

  /** Every denomination of the sum comes from an argument. */
  lemma MergeDenoms(a: seq<Coin>, b: seq<Coin>, limit: int)
    requires Ordered(a) && Ordered(b)
    requires Merge(a, b, limit).Value?
    ensures Denoms(Merge(a, b, limit).value) <= Denoms(a) + Denoms(b)
  {
    var r := Merge(a, b, limit).value;
    MergeOrdered(a, b, limit);
    forall d | d in Denoms(r) ensures d in Denoms(a) + Denoms(b) {
      var i :| 0 <= i < |r| && r[i].denom == d;
      AmountAt(r, i);
      MergeAmount(a, b, limit, d);
      if d !in Denoms(a) { AmountAbsent(a, d); }
      if d !in Denoms(b) { AmountAbsent(b, d); }
    }
  }

  lemma DenomsTail(cs: seq<Coin>)
    requires cs != []
    ensures Denoms(cs) == {cs[0].denom} + Denoms(cs[1..])
  {
    assert forall i :: 0 <= i < |cs[1..]| ==> cs[1..][i] == cs[i + 1];
    forall d | d in Denoms(cs) ensures d in {cs[0].denom} + Denoms(cs[1..]) {
      var i :| 0 <= i < |cs| && cs[i].denom == d;
      if i > 0 { assert cs[1..][i - 1].denom == d; }
    }
  }

  ghost predicate Overflows(a: seq<Coin>, b: seq<Coin>, limit: int) {
    exists d :: d in Denoms(a) && d in Denoms(b) && !Fits(Amount(a, d) + Amount(b, d), limit)
  }

  lemma OverflowsTail(a: seq<Coin>, a': seq<Coin>, b: seq<Coin>, b': seq<Coin>, limit: int, x: Bytes)
    requires a' == a || (a != [] && a' == a[1..] && a[0].denom == x)
    requires b' == b || (b != [] && b' == b[1..] && b[0].denom == x)
    requires Ordered(a) && Ordered(b)
    requires x !in Denoms(a') * Denoms(b')
    requires x in Denoms(a) && x in Denoms(b) ==> Fits(Amount(a, x) + Amount(b, x), limit)
    ensures Overflows(a, b, limit) <==> Overflows(a', b', limit)
  {
    hide Amount, Denoms, Ordered, Fits;
    forall d | d != x
      ensures d in Denoms(a) <==> d in Denoms(a')
      ensures d in Denoms(b) <==> d in Denoms(b')
      ensures Amount(a, d) == Amount(a', d) && Amount(b, d) == Amount(b', d)
    {
      TailAgrees(a, a', x, d);
      TailAgrees(b, b', x, d);
    }
  }

  /** Dropping the coin of `x` changes nothing at another denomination. */
  lemma TailAgrees(cs: seq<Coin>, cs': seq<Coin>, x: Bytes, d: Bytes)
    requires cs' == cs || (cs != [] && cs' == cs[1..] && cs[0].denom == x)
    requires d != x
    ensures d in Denoms(cs) <==> d in Denoms(cs')
    ensures Amount(cs, d) == Amount(cs', d)
  {
    if cs' != cs {
      hide Denoms;
      DenomsTail(cs);
    }
  }

  lemma NotAbove(cs: seq<Coin>, x: Bytes)
    requires Above(x, cs)
    ensures x !in Denoms(cs)
  {
    LessIrreflexive(x);
  }

  /** The merge panics exactly when a shared denomination overflows. */
  lemma {:induction false} MergePanics(a: seq<Coin>, b: seq<Coin>, limit: int)
    requires Ordered(a) && Ordered(b)
    ensures Merge(a, b, limit).Panic? <==> Overflows(a, b, limit)
    decreases |a| + |b|
  {
    if a == [] || b == [] {
    } else if Less(a[0].denom, b[0].denom) {
      AboveTail(b, a[0].denom);
      NotAbove(b, a[0].denom);
      MergePanics(a[1..], b, limit);
      OverflowsTail(a, a[1..], b, b, limit, a[0].denom);
    } else if a[0].denom == b[0].denom {
      AmountAt(a, 0);
      AmountAt(b, 0);
      DenomsTail(a);
      DenomsTail(b);
      if Fits(a[0].amount + b[0].amount, limit) {
        AboveTail(a, a[0].denom);
        NotAbove(a[1..], a[0].denom);
        MergePanics(a[1..], b[1..], limit);
        OverflowsTail(a, a[1..], b, b[1..], limit, a[0].denom);
      }
    } else {
      Trichotomy(b[0].denom, a[0].denom);
      AboveTail(a, b[0].denom);
      NotAbove(a, b[0].denom);
      MergePanics(a, b[1..], limit);
      OverflowsTail(a, a, b, b[1..], limit, b[0].denom);
    }
  }

  function Behind(sum: seq<Coin>, rest: Outcome<seq<Coin>>): Outcome<seq<Coin>> {
    if rest.Panic? then Panic else Value(sum + rest.value)
  }

  lemma BehindFront(sum: seq<Coin>, c: Coin, rest: Outcome<seq<Coin>>)
    ensures Behind(sum, Front(c, rest)) == Behind(if c.amount == 0 then sum else sum + [c], rest)
  {
    if rest.Value? {
      assert sum + ([c] + rest.value) == (sum + [c]) + rest.value;
      assert [] + rest.value == rest.value;
    }
  }

  /** The index loop shared by `Coins.safeAdd` and `DecCoins.safeAdd`. */
  method MergeLoop(coins: seq<Coin>, coinsB: seq<Coin>, limit: int) returns (r: Outcome<seq<Coin>>)
    ensures r == Merge(coins, coinsB, limit)
  {
    var sum: seq<Coin> := [];
    var indexA, indexB := 0, 0;
    assert coins[0..] == coins && coinsB[0..] == coinsB;
    assert Merge(coins, coinsB, limit).Value? ==>
           sum + Merge(coins, coinsB, limit).value == Merge(coins, coinsB, limit).value;
    while true
      invariant 0 <= indexA <= |coins| && 0 <= indexB <= |coinsB|
      invariant Merge(coins, coinsB, limit) == Behind(sum, Merge(coins[indexA..], coinsB[indexB..], limit))
      decreases |coins| + |coinsB| - indexA - indexB
    {
      if indexA == |coins| {
        if indexB == |coinsB| {
          assert sum + [] == sum;
          return Value(sum);
        }
        var rest := RemoveZeroCoins(coinsB[indexB..]);
        return Value(sum + rest);
      } else if indexB == |coinsB| {
        var rest := RemoveZeroCoins(coins[indexA..]);
        return Value(sum + rest);
      }
      var coinA, coinB := coins[indexA], coinsB[indexB];
      ghost var tailA, tailB := coins[indexA..][1..], coinsB[indexB..][1..];
      assert tailA == coins[indexA + 1..] && tailB == coinsB[indexB + 1..];
      if Less(coinA.denom, coinB.denom) {
        BehindFront(sum, coinA, Merge(tailA, coinsB[indexB..], limit));
        if coinA.amount != 0 {
          sum := sum + [coinA];
        }
        indexA := indexA + 1;
      } else if coinA.denom == coinB.denom {
        var res := Coin(coinA.denom, coinA.amount + coinB.amount);
        if !Fits(res.amount, limit) {
          return Panic;
        }
        BehindFront(sum, res, Merge(tailA, tailB, limit));
        if res.amount != 0 {
          sum := sum + [res];
        }
        indexA := indexA + 1;
        indexB := indexB + 1;
      } else {
        BehindFront(sum, coinB, Merge(coins[indexA..], tailB, limit));
        if coinB.amount != 0 {
          sum := sum + [coinB];
        }
        indexB := indexB + 1;
      }
    }
  }

  /** `isSorted` allows equal neighbours. */
  ghost predicate WeaklySorted(cs: seq<Coin>) {
    forall i :: 1 <= i < |cs| ==> !Less(cs[i].denom, cs[i - 1].denom)
  }

  lemma OrderedIsWeaklySorted(cs: seq<Coin>)
    requires Ordered(cs)
    ensures WeaklySorted(cs)
  {
    forall i | 1 <= i < |cs| ensures !Less(cs[i].denom, cs[i - 1].denom) {
      LessAsymmetric(cs[i - 1].denom, cs[i].denom);
    }
  }

  method IsSorted(coins: seq<Coin>) returns (sorted: bool)
    ensures sorted <==> WeaklySorted(coins)
  {
    var i := 1;
    while i < |coins|
      invariant 1 <= i
      invariant forall k :: 1 <= k < i && k < |coins| ==> !Less(coins[k].denom, coins[k - 1].denom)
    {
      if Less(coins[i].denom, coins[i - 1].denom) {
        return false;
      }
      i := i + 1;
    }
    return true;
  }

  ghost function Sum(a: seq<Coin>, b: seq<Coin>): Outcome<seq<Coin>> {
    if WeaklySorted(a) && WeaklySorted(b) then Merge(a, b, TWO256) else Panic
  }

  /** `Coins.Add`: on canonical sets the result is canonical and adds at every denomination, and it
      panics exactly when some total leaves the 256-bit range. */
  method SafeAdd(coins: seq<Coin>, coinsB: seq<Coin>) returns (r: Outcome<seq<Coin>>)
    ensures r == Sum(coins, coinsB)
    ensures r.Value? ==> forall d :: Amount(r.value, d) == Amount(coins, d) + Amount(coinsB, d)
    ensures !WeaklySorted(coins) || !WeaklySorted(coinsB) ==> r.Panic?
    ensures Canonical(coins) && Canonical(coinsB) ==>
              && (r.Panic? <==> Overflows(coins, coinsB, TWO256))
              && (r.Value? ==> Canonical(r.value))
  {
    var sorted := IsSorted(coins);
    if sorted {
      sorted := IsSorted(coinsB);
    }
    if !sorted {
      if Canonical(coins) && Canonical(coinsB) {
        OrderedIsWeaklySorted(coins);
        OrderedIsWeaklySorted(coinsB);
      }
      return Panic;
    }
    r := MergeLoop(coins, coinsB, TWO256);
    if r.Value? {
      forall d { MergeAmount(coins, coinsB, TWO256, d); }
    }
    if Canonical(coins) && Canonical(coinsB) {
      MergePanics(coins, coinsB, TWO256);
      if r.Value? { SumCanonical(coins, coinsB, TWO256); }
    }
  }

  lemma SumCanonical(a: seq<Coin>, b: seq<Coin>, limit: int)
    requires Canonical(a) && Canonical(b)
    requires Merge(a, b, limit).Value?
    ensures Canonical(Merge(a, b, limit).value)
  {
    var r := Merge(a, b, limit).value;
    MergeOrdered(a, b, limit);
    MergeDenoms(a, b, limit);
    forall i | 0 <= i < |r| ensures ValidDenom(r[i].denom) && r[i].amount > 0 {
      assert r[i].denom in Denoms(r);
      AmountAt(r, i);
      MergeAmount(a, b, limit, r[i].denom);
      AmountOfCanonical(a, r[i].denom);
      AmountOfCanonical(b, r[i].denom);
    }
  }

  lemma AddCommutative(a: seq<Coin>, b: seq<Coin>)
    requires Canonical(a) && Canonical(b)
    ensures Sum(a, b) == Sum(b, a)
  {
    OrderedIsWeaklySorted(a);
    OrderedIsWeaklySorted(b);
    MergePanics(a, b, TWO256);
    MergePanics(b, a, TWO256);
    if Sum(a, b).Value? {
      SumCanonical(a, b, TWO256);
      SumCanonical(b, a, TWO256);
      forall d ensures Amount(Sum(a, b).value, d) == Amount(Sum(b, a).value, d) {
        MergeAmount(a, b, TWO256, d);
        MergeAmount(b, a, TWO256, d);
      }
      CanonicalUnique(Sum(a, b).value, Sum(b, a).value);
    }
  }

  lemma SumIsMerge(a: seq<Coin>, b: seq<Coin>)
    requires Canonical(a) && Canonical(b)
    ensures Sum(a, b) == Merge(a, b, TWO256)
    ensures Sum(a, b).Value? ==> Canonical(Sum(a, b).value)
    ensures Sum(a, b).Value? ==> forall d :: Amount(Sum(a, b).value, d) == Amount(a, d) + Amount(b, d)
    ensures Sum(a, b).Panic? <==> Overflows(a, b, TWO256)
  {
    OrderedIsWeaklySorted(a);
    OrderedIsWeaklySorted(b);
    MergePanics(a, b, TWO256);
    if Sum(a, b).Value? {
      SumCanonical(a, b, TWO256);
      forall d { MergeAmount(a, b, TWO256, d); }
    }
  }

  /** Both groupings of three sets panic together, and otherwise give the same list. */
  lemma AddAssociative(a: seq<Coin>, b: seq<Coin>, c: seq<Coin>)
    requires Canonical(a) && Canonical(b) && Canonical(c)
    requires AllFit(a, TWO256) && AllFit(b, TWO256) && AllFit(c, TWO256)
    ensures SumBefore(Sum(a, b), c) == SumAfter(a, Sum(b, c))
  {
    SumIsMerge(a, b);
    SumIsMerge(b, c);
    TotalFits(a, b);
    TotalFits(b, c);
    if Sum(a, b).Value? { SumIsMerge(Sum(a, b).value, c); TotalFits(Sum(a, b).value, c); SumFits(a, b); }
    if Sum(b, c).Value? { SumIsMerge(a, Sum(b, c).value); TotalFits(a, Sum(b, c).value); SumFits(b, c); }
    forall d ensures Amount(a, d) >= 0 && Amount(b, d) >= 0 && Amount(c, d) >= 0 {
      AmountOfCanonical(a, d);
      AmountOfCanonical(b, d);
      AmountOfCanonical(c, d);
    }
    if SumBefore(Sum(a, b), c).Value? && SumAfter(a, Sum(b, c)).Value? {
      CanonicalUnique(SumBefore(Sum(a, b), c).value, SumAfter(a, Sum(b, c)).value);
    }
  }

  ghost function SumBefore(o: Outcome<seq<Coin>>, c: seq<Coin>): Outcome<seq<Coin>> {
    if o.Panic? then Panic else Sum(o.value, c)
  }

  ghost function SumAfter(a: seq<Coin>, o: Outcome<seq<Coin>>): Outcome<seq<Coin>> {
    if o.Panic? then Panic else Sum(a, o.value)
  }

  ghost predicate TotalsFit(a: seq<Coin>, b: seq<Coin>) {
    forall d :: Amount(a, d) + Amount(b, d) < TWO256
  }

  lemma AmountFits(a: seq<Coin>, d: Bytes)
    requires Canonical(a) && AllFit(a, TWO256)
    ensures 0 <= Amount(a, d) < TWO256
  {
    AmountOfCanonical(a, d);
    if d in Denoms(a) {
      var i :| 0 <= i < |a| && a[i].denom == d;
      AmountAt(a, i);
    }
  }

  /** For representable sets, no shared denomination overflows exactly when no total does. */
  lemma TotalFits(a: seq<Coin>, b: seq<Coin>)
    requires Canonical(a) && Canonical(b)
    ensures AllFit(a, TWO256) && AllFit(b, TWO256) ==> (!Overflows(a, b, TWO256) <==> TotalsFit(a, b))
  {
    if AllFit(a, TWO256) && AllFit(b, TWO256) {
      forall d
        ensures 0 <= Amount(a, d) < TWO256 && 0 <= Amount(b, d) < TWO256
        ensures d !in Denoms(a) ==> Amount(a, d) == 0
        ensures d !in Denoms(b) ==> Amount(b, d) == 0
      {
        AmountFits(a, d);
        AmountFits(b, d);
        AmountOfCanonical(a, d);
        AmountOfCanonical(b, d);
      }
    }
  }

  lemma SumFits(a: seq<Coin>, b: seq<Coin>)
    requires Canonical(a) && Canonical(b) && AllFit(a, TWO256) && AllFit(b, TWO256)
    requires Sum(a, b).Value?
    ensures AllFit(Sum(a, b).value, TWO256)
  {
    SumIsMerge(a, b);
    TotalFits(a, b);
    var r := Sum(a, b).value;
    forall i | 0 <= i < |r| ensures Fits(r[i].amount, TWO256) {
      AmountAt(r, i);
      assert Amount(a, r[i].denom) + Amount(b, r[i].denom) < TWO256;
    }
  }

  // ---------------------------------------------------------------- AmountOf

  /** Recursive binary search. */
  function AmountOfNoDenomValidation(coins: seq<Coin>, denom: Bytes): int {
    if |coins| == 0 then 0
    else if |coins| == 1 then
      if coins[0].denom == denom then coins[0].amount else 0
    else
      var mid := |coins| / 2;
      if Less(denom, coins[mid].denom) then AmountOfNoDenomValidation(coins[..mid], denom)
      else if denom == coins[mid].denom then coins[mid].amount
      else AmountOfNoDenomValidation(coins[mid + 1..], denom)
  }

  lemma AmountBelow(cs: seq<Coin>, d: Bytes)
    requires Ordered(cs) && (cs != [] ==> Less(d, cs[0].denom))
    ensures Amount(cs, d) == 0
  {
    if cs != [] {
      AboveTail(cs, d);
      NotAbove(cs, d);
    }
    AmountAbsent(cs, d);
  }

  lemma AmountBeyond(cs: seq<Coin>, d: Bytes)
    requires forall i :: 0 <= i < |cs| ==> Less(cs[i].denom, d)
    ensures Amount(cs, d) == 0
  {
    LessIrreflexive(d);
    AmountAbsent(cs, d);
  }

  lemma AmountLeft(coins: seq<Coin>, mid: nat, denom: Bytes)
    requires Ordered(coins) && mid < |coins| && Less(denom, coins[mid].denom)
    ensures Ordered(coins[..mid]) && Amount(coins, denom) == Amount(coins[..mid], denom)
  {
    assert coins == coins[..mid] + coins[mid..];
    AmountConcat(coins[..mid], coins[mid..], denom);
    AmountBelow(coins[mid..], denom);
  }

  lemma AmountRight(coins: seq<Coin>, mid: nat, denom: Bytes)
    requires Ordered(coins) && mid < |coins| && Less(coins[mid].denom, denom)
    ensures Ordered(coins[mid + 1..]) && Amount(coins, denom) == Amount(coins[mid + 1..], denom)
  {
    hide Less;
    assert coins == coins[..mid + 1] + coins[mid + 1..];
    AmountConcat(coins[..mid + 1], coins[mid + 1..], denom);
    forall i | 0 <= i < mid ensures Less(coins[i].denom, denom) {
      LessTransitive(coins[i].denom, coins[mid].denom, denom);
    }
    AmountBeyond(coins[..mid + 1], denom);
  }

  /** On a sorted set the binary search finds what a scan of the whole list finds. */
  lemma {:induction false} BinarySearchIsAmount(coins: seq<Coin>, denom: Bytes)
    requires Ordered(coins)
    ensures AmountOfNoDenomValidation(coins, denom) == Amount(coins, denom)
    decreases |coins|
  {
    if |coins| > 1 {
      hide Less, Ordered, Amount;
      var mid := |coins| / 2;
      if Less(denom, coins[mid].denom) {
        AmountLeft(coins, mid, denom);
        BinarySearchIsAmount(coins[..mid], denom);
      } else if denom == coins[mid].denom {
        AmountAt(coins, mid);
      } else {
        Trichotomy(coins[mid].denom, denom);
        AmountRight(coins, mid, denom);
        BinarySearchIsAmount(coins[mid + 1..], denom);
      }
    }
  }

  /** `AmountOf` panics on an invalid denomination. */
  function AmountOf(coins: seq<Coin>, denom: Bytes): Outcome<int> {
    if ValidDenom(denom) then Value(AmountOfNoDenomValidation(coins, denom)) else Panic
  }

  // ---------------------------------------------------------------- order predicates

  ghost predicate Covers(a: seq<Coin>, b: seq<Coin>) {
    forall d :: Amount(a, d) >= Amount(b, d)
  }

  lemma {:induction false} DenomsCount(cs: seq<Coin>)
    requires Ordered(cs)
    ensures |Denoms(cs)| == |cs|
  {
    if cs == [] {
      assert Denoms(cs) == {};
    } else {
      DenomsCount(cs[1..]);
      DenomsTail(cs);
      AboveTail(cs, cs[0].denom);
      NotAbove(cs[1..], cs[0].denom);
    }
  }

  /** `DenomsSubsetOf`: the length test that comes first never changes the answer. */
  method DenomsSubsetOf(coins: seq<Coin>, coinsB: seq<Coin>) returns (r: Outcome<bool>)
    ensures r.Panic? ==> exists i :: 0 <= i < |coins| && !ValidDenom(coins[i].denom)
    ensures Canonical(coins) && Canonical(coinsB) ==>
              r.Value? && (r.value <==> Denoms(coins) <= Denoms(coinsB))
  {
    if |coins| > |coinsB| {
      if Canonical(coins) && Canonical(coinsB) && Denoms(coins) <= Denoms(coinsB) {
        DenomsCount(coins);
        DenomsCount(coinsB);
        SubsetCount(Denoms(coins), Denoms(coinsB));
      }
      return Value(false);
    }
    for k := 0 to |coins|
      invariant Canonical(coins) && Canonical(coinsB) ==>
                  forall i :: 0 <= i < k ==> coins[i].denom in Denoms(coinsB)
    {
      var amount := AmountOf(coinsB, coins[k].denom);
      if amount.Panic? {
        return Panic;
      }
      if Canonical(coins) && Canonical(coinsB) {
        BinarySearchIsAmount(coinsB, coins[k].denom);
        AmountOfCanonical(coinsB, coins[k].denom);
        assert coins[k].denom in Denoms(coins);
      }
      if amount.value == 0 {
        return Value(false);
      }
    }
    return Value(true);
  }

  method IsAllGT(coins: seq<Coin>, coinsB: seq<Coin>) returns (r: Outcome<bool>)
    ensures Canonical(coins) && Canonical(coinsB) ==>
              && r.Value?
              && (r.value <==>
                    coins != [] && forall d :: d in Denoms(coinsB) ==> Amount(coins, d) > Amount(coinsB, d))
  {
    if |coins| == 0 {
      return Value(false);
    }
    if |coinsB| == 0 {
      return Value(true);
    }
    var subset := DenomsSubsetOf(coinsB, coins);
    if subset.Panic? {
      return Panic;
    }
    if !subset.value {
      if Canonical(coins) && Canonical(coinsB) {
        var d :| d in Denoms(coinsB) && d !in Denoms(coins);
        AmountOfCanonical(coins, d);
        AmountOfCanonical(coinsB, d);
      }
      return Value(false);
    }
    for k := 0 to |coinsB|
      invariant Canonical(coins) && Canonical(coinsB) ==>
                  forall i :: 0 <= i < k ==> Amount(coins, coinsB[i].denom) > Amount(coinsB, coinsB[i].denom)
    {
      var amountA := AmountOf(coins, coinsB[k].denom);
      if amountA.Panic? {
        return Panic;
      }
      if Canonical(coins) && Canonical(coinsB) {
        BinarySearchIsAmount(coins, coinsB[k].denom);
        AmountAt(coinsB, k);
        assert coinsB[k].denom in Denoms(coinsB);
      }
      if amountA.value <= coinsB[k].amount {
        return Value(false);
      }
    }
    return Value(true);
  }

  /** `IsAllGTE` looks only at the denominations of the second set, yet decides `Covers`. */
  method IsAllGTE(coins: seq<Coin>, coinsB: seq<Coin>) returns (r: Outcome<bool>)
    ensures Canonical(coins) && Canonical(coinsB) ==> r.Value? && (r.value <==> Covers(coins, coinsB))
  {
    if |coinsB| == 0 {
      if Canonical(coins) {
        forall d { AmountOfCanonical(coins, d); }
      }
      return Value(true);
    }
    if |coins| == 0 {
      if Canonical(coinsB) { AmountAt(coinsB, 0); }
      return Value(false);
    }
    for k := 0 to |coinsB|
      invariant Canonical(coins) && Canonical(coinsB) ==>
                  forall i :: 0 <= i < k ==> Amount(coins, coinsB[i].denom) >= Amount(coinsB, coinsB[i].denom)
    {
      var amountA := AmountOf(coins, coinsB[k].denom);
      if amountA.Panic? {
        return Panic;
      }
      if Canonical(coins) && Canonical(coinsB) {
        BinarySearchIsAmount(coins, coinsB[k].denom);
        AmountAt(coinsB, k);
      }
      if coinsB[k].amount > amountA.value {
        return Value(false);
      }
    }
    if Canonical(coins) && Canonical(coinsB) {
      forall d ensures Amount(coins, d) >= Amount(coinsB, d) {
        AmountOfCanonical(coins, d);
        AmountOfCanonical(coinsB, d);
        if d in Denoms(coinsB) {
          var i :| 0 <= i < |coinsB| && coinsB[i].denom == d;
        }
      }
    }
    return Value(true);
  }

  // ---------------------------------------------------------------- SafeSub, Sub

  ghost function Difference(a: seq<Coin>, b: seq<Coin>): Outcome<seq<Coin>> {
    Sum(a, Negated(b))
  }

  /** Subtraction of representable sets never overflows and subtracts at every denomination. */
  lemma DifferenceAmounts(a: seq<Coin>, b: seq<Coin>)
    requires Canonical(a) && Canonical(b) && AllFit(a, TWO256) && AllFit(b, TWO256)
    ensures Difference(a, b).Value?
    ensures Ordered(Difference(a, b).value) && NoZero(Difference(a, b).value)
    ensures forall d :: Amount(Difference(a, b).value, d) == Amount(a, d) - Amount(b, d)
    ensures Denoms(Difference(a, b).value) <= Denoms(a) + Denoms(b)
  {
    var nb := Negated(b);
    assert Ordered(nb);
    OrderedIsWeaklySorted(a);
    OrderedIsWeaklySorted(nb);
    forall d
      ensures Amount(nb, d) == -Amount(b, d)
      ensures Fits(Amount(a, d) - Amount(b, d), TWO256)
    {
      NegatedAmount(b, d);
      AmountFits(a, d);
      AmountFits(b, d);
    }
    MergePanics(a, nb, TWO256);
    MergeOrdered(a, nb, TWO256);
    forall d { MergeAmount(a, nb, TWO256, d); }
    MergeDenoms(a, nb, TWO256);
    assert Denoms(nb) == Denoms(b);
  }

  lemma DifferenceSign(a: seq<Coin>, b: seq<Coin>)
    requires Canonical(a) && Canonical(b) && AllFit(a, TWO256) && AllFit(b, TWO256)
    ensures Difference(a, b).Value?
    ensures (exists i :: 0 <= i < |Difference(a, b).value| && Difference(a, b).value[i].amount < 0) <==> !Covers(a, b)
    ensures Covers(a, b) ==> Canonical(Difference(a, b).value)
  {
    DifferenceAmounts(a, b);
    var r := Difference(a, b).value;
    forall i | 0 <= i < |r| ensures Amount(r, r[i].denom) == r[i].amount && ValidDenom(r[i].denom) {
      AmountAt(r, i);
      assert r[i].denom in Denoms(r);
    }
    if !Covers(a, b) {
      var d :| Amount(a, d) < Amount(b, d);
      assert Amount(r, d) < 0;
      if d !in Denoms(r) { AmountAbsent(r, d); }
      var i :| 0 <= i < |r| && r[i].denom == d;
      assert r[i].amount < 0;
    }
  }

  /** `SafeSub`: its flag is set exactly when `IsAllGTE` answers false. */
  method SafeSub(coins: seq<Coin>, coinsB: seq<Coin>) returns (r: Outcome<(seq<Coin>, bool)>)
    ensures r.Panic? <==> Difference(coins, coinsB).Panic?
    ensures r.Value? ==> r.value.0 == Difference(coins, coinsB).value
    ensures Canonical(coins) && Canonical(coinsB) && AllFit(coins, TWO256) && AllFit(coinsB, TWO256) ==>
              && r.Value?
              && (forall d :: Amount(r.value.0, d) == Amount(coins, d) - Amount(coinsB, d))
              && (r.value.1 <==> !Covers(coins, coinsB))
              && (!r.value.1 ==> Canonical(r.value.0))
  {
    var neg := Negative(coinsB);
    var diff := SafeAdd(coins, neg);
    if diff.Panic? {
      if Canonical(coins) && Canonical(coinsB) && AllFit(coins, TWO256) && AllFit(coinsB, TWO256) {
        DifferenceAmounts(coins, coinsB);
      }
      return Panic;
    }
    var hasNeg := IsAnyNegative(diff.value);
    if Canonical(coins) && Canonical(coinsB) && AllFit(coins, TWO256) && AllFit(coinsB, TWO256) {
      DifferenceAmounts(coins, coinsB);
      DifferenceSign(coins, coinsB);
    }
    return Value((diff.value, hasNeg));
  }

  method IsAnyNegative(coins: seq<Coin>) returns (neg: bool)
    ensures neg <==> exists i :: 0 <= i < |coins| && coins[i].amount < 0
  {
    for k := 0 to |coins|
      invariant forall i :: 0 <= i < k ==> coins[i].amount >= 0
    {
      if coins[k].amount < 0 {
        return true;
      }
    }
    return false;
  }

  /** `Sub` returns a canonical set, and panics exactly when the second set is not covered. */
  method Sub(coins: seq<Coin>, coinsB: seq<Coin>) returns (r: Outcome<seq<Coin>>)
    ensures Canonical(coins) && Canonical(coinsB) && AllFit(coins, TWO256) && AllFit(coinsB, TWO256) ==>
              && (r.Value? <==> Covers(coins, coinsB))
              && (r.Value? ==> r == Difference(coins, coinsB) && Canonical(r.value))
  {
    var diff := SafeSub(coins, coinsB);
    if diff.Panic? || diff.value.1 {
      return Panic;
    }
    return Value(diff.value.0);
  }

  /** Subtracting what was added gives back the very same list. */
  lemma AddThenSub(a: seq<Coin>, b: seq<Coin>)
    requires Canonical(a) && Canonical(b) && AllFit(a, TWO256) && AllFit(b, TWO256)
    requires Sum(a, b).Value?
    ensures Covers(Sum(a, b).value, b)
    ensures Difference(Sum(a, b).value, b) == Value(a)
  {
    var s := Sum(a, b).value;
    SumIsMerge(a, b);
    SumFits(a, b);
    forall d ensures Amount(s, d) >= Amount(b, d) {
      AmountOfCanonical(a, d);
    }
    DifferenceAmounts(s, b);
    DifferenceSign(s, b);
    CanonicalUnique(Difference(s, b).value, a);
  }

  /** Subtraction undone by addition. */
  lemma SubThenAdd(a: seq<Coin>, b: seq<Coin>)
    requires Canonical(a) && Canonical(b) && AllFit(a, TWO256) && AllFit(b, TWO256)
    requires Covers(a, b)
    ensures Difference(a, b).Value? && Sum(Difference(a, b).value, b) == Value(a)
  {
    DifferenceAmounts(a, b);
    DifferenceSign(a, b);
    var r := Difference(a, b).value;
    SumIsMerge(r, b);
    forall d ensures Amount(r, d) + Amount(b, d) < TWO256 {
      AmountFits(a, d);
    }
    forall d ensures 0 <= Amount(r, d) && 0 <= Amount(b, d) {
      AmountOfCanonical(r, d);
      AmountOfCanonical(b, d);
    }
    assert !Overflows(r, b, TWO256);
    CanonicalUnique(Sum(r, b).value, a);
  }
}

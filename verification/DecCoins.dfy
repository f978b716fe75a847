/** Decimal coin sets (types/dec_coin.go). Amounts are raw decimals, that is multiples of 10^-18. */
module DecCoins {
  import opened Common
  import opened Lex
  import opened Outcomes
  import opened Coins
  import opened Decimals

  /** `DecCoins.Add`. Unlike `Coins.Add` it does not check that its arguments are sorted. */
  method AddDec(coins: seq<Coin>, coinsB: seq<Coin>) returns (r: Outcome<seq<Coin>>)
    ensures r == Merge(coins, coinsB, DEC_LIMIT)
    ensures r.Value? ==> forall d :: Amount(r.value, d) == Amount(coins, d) + Amount(coinsB, d)
    ensures Canonical(coins) && Canonical(coinsB) ==>
              && (r.Panic? <==> Overflows(coins, coinsB, DEC_LIMIT))
              && (r.Value? ==> Canonical(r.value))
  {
    r := MergeLoop(coins, coinsB, DEC_LIMIT);
    if r.Value? {
      forall d { MergeAmount(coins, coinsB, DEC_LIMIT, d); }
    }
    if Canonical(coins) && Canonical(coinsB) {
      MergePanics(coins, coinsB, DEC_LIMIT);
      if r.Value? { SumCanonical(coins, coinsB, DEC_LIMIT); }
    }
  }

  /** `DecCoin.TruncateDecimal`: the whole part as an `Int` and the rest. The constructors it calls
      panic on a whole part beyond 256 bits, a negative part or an invalid denomination. */
  function TruncateCoin(coin: Coin): Outcome<(Coin, Coin)> {
    var truncated := Quo(coin.amount, ONE);
    var change := coin.amount - truncated * ONE;
    if Fits(truncated, TWO256) && ValidDenom(coin.denom) && truncated >= 0 && change >= 0
    then Value((Coin(coin.denom, truncated), Coin(coin.denom, change)))
    else Panic
  }

  ghost predicate Conserves(coins: seq<Coin>, t: seq<Coin>, c: seq<Coin>) {
    forall d :: Amount(t, d) * ONE + Amount(c, d) == Amount(coins, d) && 0 <= Amount(c, d) < ONE
  }

  lemma NotYetSeen(coins: seq<Coin>, k: nat, t: seq<Coin>, c: seq<Coin>)
    requires Canonical(coins) && k < |coins|
    requires Canonical(t) && Canonical(c) && Conserves(coins[..k], t, c)
    ensures coins[k].denom !in Denoms(t) && coins[k].denom !in Denoms(c)
  {
    var d := coins[k].denom;
    forall i | 0 <= i < k ensures coins[..k][i].denom != d {
      LessAsymmetric(coins[i].denom, d);
    }
    AmountAbsent(coins[..k], d);
    AmountOfCanonical(t, d);
    AmountOfCanonical(c, d);
    assert Amount(t, d) * ONE + Amount(c, d) == 0;
  }

  lemma ConservesNext(coins: seq<Coin>, k: nat, t: seq<Coin>, c: seq<Coin>, t': seq<Coin>, c': seq<Coin>)
    requires Canonical(coins) && k < |coins|
    requires Canonical(t) && Canonical(c) && Conserves(coins[..k], t, c)
    requires TruncateCoin(coins[k]).Value?
    requires forall d :: Amount(t', d) == Amount(t, d) + Amount([TruncateCoin(coins[k]).value.0], d)
    requires forall d :: Amount(c', d) == Amount(c, d) + Amount([TruncateCoin(coins[k]).value.1], d)
    ensures Conserves(coins[..k + 1], t', c')
  {
    var (truncated, change) := TruncateCoin(coins[k]).value;
    NotYetSeen(coins, k, t, c);
    forall d
      ensures Amount(t', d) * ONE + Amount(c', d) == Amount(coins[..k + 1], d) && 0 <= Amount(c', d) < ONE
    {
      assert coins[..k + 1] == coins[..k] + [coins[k]];
      AmountConcat(coins[..k], [coins[k]], d);
      assert Amount([coins[k]][1..], d) == 0 && Amount([truncated][1..], d) == 0 && Amount([change][1..], d) == 0;
      assert Amount(t, d) * ONE + Amount(c, d) == Amount(coins[..k], d);
      if d == coins[k].denom { AmountAbsent(c, d); }
    }
  }

  /** Appends one part of a coin whose denomination has not been seen. */
  lemma FreshPart(parts: seq<Coin>, part: Coin, limit: int)
    requires Canonical(parts) && part.denom !in Denoms(parts)
    ensures !Overflows(parts, [part], limit)
    ensures ValidDenom(part.denom) && part.amount > 0 ==> Canonical([part])
  {
    DenomsTail([part]);
    assert [part][1..] == [] && Denoms([part]) == {part.denom};
  }

  lemma ZeroPart(part: Coin)
    requires part.amount == 0
    ensures forall d :: Amount([part], d) == 0
  {
    forall d ensures Amount([part], d) == 0 {
      assert Amount([part][1..], d) == 0;
    }
  }

  /** `TruncateDecimal` loses nothing: whole parts and change add up at every denomination, the change
      is below one unit, and both results are canonical. */
  method TruncateDecimal(coins: seq<Coin>) returns (r: Outcome<(seq<Coin>, seq<Coin>)>)
    ensures Canonical(coins) ==>
              && (r.Panic? <==> exists i :: 0 <= i < |coins| && coins[i].amount >= TWO256 * ONE)
              && (r.Value? ==> Canonical(r.value.0) && Canonical(r.value.1) && Conserves(coins, r.value.0, r.value.1))
  {
    var truncatedCoins: seq<Coin>, changeCoins: seq<Coin> := [], [];
    for k := 0 to |coins|
      invariant Canonical(coins) ==>
                  && Canonical(truncatedCoins) && Canonical(changeCoins)
                  && Conserves(coins[..k], truncatedCoins, changeCoins)
                  && forall i :: 0 <= i < k ==> coins[i].amount < TWO256 * ONE
    {
      var parts := TruncateCoin(coins[k]);
      if parts.Panic? {
        return Panic;
      }
      var (truncated, change) := parts.value;
      ghost var t, c := truncatedCoins, changeCoins;
      if Canonical(coins) {
        NotYetSeen(coins, k, t, c);
        FreshPart(t, truncated, TWO256);
        FreshPart(c, change, DEC_LIMIT);
      }
      if truncated.amount != 0 {
        var sum := SafeAdd(truncatedCoins, [truncated]);
        if sum.Panic? {
          return Panic;
        }
        truncatedCoins := sum.value;
      } else {
        ZeroPart(truncated);
      }
      if change.amount != 0 {
        var sum := AddDec(changeCoins, [change]);
        if sum.Panic? {
          return Panic;
        }
        changeCoins := sum.value;
      } else {
        ZeroPart(change);
      }
      if Canonical(coins) {
        ConservesNext(coins, k, t, c, truncatedCoins, changeCoins);
      }
    }
    assert coins[..|coins|] == coins;
    return Value((truncatedCoins, changeCoins));
  }

  function Min(x: int, y: int): int {
    if x < y then x else y
  }

  /** `Intersect` is the pointwise minimum, and canonical. */
  method Intersect(coins: seq<Coin>, coinsB: seq<Coin>) returns (r: Outcome<seq<Coin>>)
    ensures r.Panic? <==> exists i :: 0 <= i < |coins| && !ValidDenom(coins[i].denom)
    ensures Canonical(coins) && Canonical(coinsB) ==>
              && r.Value? && Canonical(r.value)
              && forall d :: Amount(r.value, d) == Min(Amount(coins, d), Amount(coinsB, d))
  {
    var res: seq<Coin> := [];
    for k := 0 to |coins|
      invariant |res| == k
      invariant forall i :: 0 <= i < k ==> ValidDenom(coins[i].denom)
      invariant forall i :: 0 <= i < k ==>
                  res[i] == Coin(coins[i].denom,
                                 Min(coins[i].amount, AmountOfNoDenomValidation(coinsB, coins[i].denom)))
    {
      var other := AmountOf(coinsB, coins[k].denom);
      if other.Panic? {
        return Panic;
      }
      res := res + [Coin(coins[k].denom, Min(coins[k].amount, other.value))];
    }
    var trimmed := RemoveZeroCoins(res);
    if Canonical(coins) && Canonical(coinsB) {
      MinimumAmounts(coins, coinsB, res);
      NonZeroOrdered(res);
      forall d { NonZeroAmount(res, d); }
      forall i | 0 <= i < |trimmed| ensures ValidDenom(trimmed[i].denom) && trimmed[i].amount > 0 {
        var k := NonZeroAt(res, i);
      }
    }
    return Value(trimmed);
  }

  lemma MinimumAmounts(coins: seq<Coin>, coinsB: seq<Coin>, res: seq<Coin>)
    requires Canonical(coins) && Canonical(coinsB) && |res| == |coins|
    requires forall i :: 0 <= i < |coins| ==>
               res[i] == Coin(coins[i].denom, Min(coins[i].amount, AmountOfNoDenomValidation(coinsB, coins[i].denom)))
    ensures Ordered(res) && forall i :: 0 <= i < |res| ==> res[i].amount >= 0
    ensures forall d :: Amount(res, d) == Min(Amount(coins, d), Amount(coinsB, d))
  {
    forall d ensures Amount(res, d) == Min(Amount(coins, d), Amount(coinsB, d)) {
      AmountOfCanonical(coins, d);
      AmountOfCanonical(coinsB, d);
      if d in Denoms(coins) {
        var i :| 0 <= i < |coins| && coins[i].denom == d;
        AmountAt(coins, i);
        AmountAt(res, i);
        BinarySearchIsAmount(coinsB, d);
      } else {
        assert forall i :: 0 <= i < |res| ==> res[i].denom == coins[i].denom;
        AmountAbsent(res, d);
      }
    }
    forall i | 0 <= i < |res| ensures res[i].amount >= 0 {
      BinarySearchIsAmount(coinsB, coins[i].denom);
      AmountOfCanonical(coinsB, coins[i].denom);
    }
  }
}

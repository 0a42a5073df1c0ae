/** Direct and chained currency exchange rates. Amounts and rates are real numbers. */
module ExchangeRates {
  import opened Ids

  type Currency = string

  type Factor = f: real | f != 0.0 witness 1.0

  datatype Money = Money(value: real, currency: Currency)

  datatype Rate =
    | Direct(source: Currency, target: Currency, rate: Factor)
    | Derived(source: Currency, target: Currency, rate: Factor, first: Rate, second: Rate)

  function Times(v: real, f: Factor): real { v * f }

  function Over(v: real, f: Factor): real { v / f }

  /** `exchange`: `None` when the rate does not apply to the currency of the amount. */
  function Exchange(r: Rate, m: Money): Option<Money> {
    match r
    case Direct(source, target, rate) =>
      if m.currency == source then Some(Money(Times(m.value, rate), target))
      else if m.currency == target then Some(Money(Over(m.value, rate), source))
      else None
    case Derived(_, _, _, first, second) =>
      if m.currency == first.source || m.currency == first.target then
        var n := Exchange(first, m);
        if n.Some? then Exchange(second, n.value) else None
      else if m.currency == second.source || m.currency == second.target then
        var n := Exchange(second, m);
        if n.Some? then Exchange(first, n.value) else None
      else None
  }

  /** `chain`: `None` when the two rates share no currency. */
  function Chain(r1: Rate, r2: Rate): Option<Rate> {
    if r1.source == r2.source then Some(Derived(r1.target, r2.target, Quotient(r2.rate, r1.rate), r1, r2))
    else if r1.source == r2.target then
      Some(Derived(r1.target, r2.source, Quotient(1.0, Product(r1.rate, r2.rate)), r1, r2))
    else if r1.target == r2.source then Some(Derived(r1.source, r2.target, Product(r1.rate, r2.rate), r1, r2))
    else if r1.target == r2.target then Some(Derived(r1.source, r2.source, Quotient(r1.rate, r2.rate), r1, r2))
    else None
  }

  function Product(a: Factor, b: Factor): (p: Factor)
    ensures p == a * b
  {
    a * b
  }

  function Quotient(a: Factor, b: Factor): (q: Factor)
    ensures q == a / b && q * b == a
  {
    assert (a / b) * b == a;
    a / b
  }

  /** Every derived node was made by `Chain`, and no node leads from a currency to itself. */
  predicate WellFormed(r: Rate) {
    && r.source != r.target
    && (r.Derived? ==> WellFormed(r.first) && WellFormed(r.second) && Chain(r.first, r.second) == Some(r))
  }

  // ----- arithmetic -----

  lemma OverTimes(v: real, a: Factor)
    ensures Times(Over(v, a), a) == v && Over(Times(v, a), a) == v
  {
  }

  /** Source to source: divide by one rate, multiply by the other. */
  lemma OverThenTimes(v: real, a: Factor, b: Factor)
    ensures Times(Over(v, a), b) == Times(v, Quotient(b, a))
    ensures Times(Over(v, a), b) == Over(v, Quotient(a, b))
  {
  }

  /** Target to source. */
  lemma OverThenOver(v: real, a: Factor, b: Factor)
    ensures Over(Over(v, a), b) == Over(v, Product(a, b))
    ensures Over(Over(v, a), b) == Times(v, Quotient(1.0, Product(a, b)))
  {
  }

  /** Source to target. */
  lemma TimesThenTimes(v: real, a: Factor, b: Factor)
    ensures Times(Times(v, a), b) == Times(v, Product(a, b))
    ensures Times(Times(v, a), b) == Over(v, Quotient(1.0, Product(a, b)))
  {
  }

  /** Target to target: multiply by one rate, divide by the other. */
  lemma TimesThenOver(v: real, a: Factor, b: Factor)
    ensures Over(Times(v, a), b) == Times(v, Quotient(a, b))
    ensures Over(Times(v, a), b) == Over(v, Quotient(b, a))
  {
  }

  // ----- what an exchange does -----

  /** A rate of any depth applies to exactly its own two currencies: it multiplies by its rate
      one way and divides by it the other way. */
  ghost function Meaning(r: Rate, m: Money): Option<Money> {
    if m.currency == r.source then Some(Money(Times(m.value, r.rate), r.target))
    else if m.currency == r.target then Some(Money(Over(m.value, r.rate), r.source))
    else None
  }

  lemma {:induction false} ExchangeMeaning(r: Rate, m: Money)
    requires WellFormed(r)
    ensures Exchange(r, m) == Meaning(r, m)
  {
    if r.Derived? {
      var a, b := r.first, r.second;
      ExchangeMeaning(a, m);
      ExchangeMeaning(b, m);
      var viaFirst := Meaning(a, m);
      var viaSecond := Meaning(b, m);
      if viaFirst.Some? { ExchangeMeaning(b, viaFirst.value); }
      if viaSecond.Some? { ExchangeMeaning(a, viaSecond.value); }
      ChainMeaning(r, m);
    }
  }

  /** In figures: the amount is multiplied by the rate or divided by it, and other currencies are
      refused. */
  lemma ExchangeAmounts(r: Rate, m: Money)
    requires WellFormed(r)
    ensures m.currency == r.source ==> Exchange(r, m) == Some(Money(m.value * r.rate, r.target))
    ensures m.currency == r.target ==> Exchange(r, m) == Some(Money(m.value / r.rate, r.source))
    ensures m.currency != r.source && m.currency != r.target ==> Exchange(r, m).None?
  {
    ExchangeMeaning(r, m);
    assert Times(m.value, r.rate) == m.value * r.rate && Over(m.value, r.rate) == m.value / r.rate;
  }

  /** Two rates can be chained exactly when they share a currency. */
  lemma ChainDefined(a: Rate, b: Rate)
    ensures Chain(a, b).Some? <==> a.source in [b.source, b.target] || a.target in [b.source, b.target]
  {
  }

  predicate Between(r: Rate, c: Currency, d: Currency) {
    (r.source == c && r.target == d) || (r.source == d && r.target == c)
  }

  /** The chain leads from the currency that the first does not share to the one that the second does
      not share. */
  lemma ChainEnds(a: Rate, b: Rate) returns (shared: Currency)
    requires Chain(a, b).Some?
    ensures var r := Chain(a, b).value; Between(a, r.source, shared) && Between(b, shared, r.target)
  {
    shared := if a.source == b.source || a.source == b.target then a.source else a.target;
  }

  /** The four orientations of `Chain`. */
  lemma ChainMeaning(r: Rate, m: Money)
    requires r.Derived? && WellFormed(r)
    ensures var a, b := r.first, r.second;
      Meaning(r, m) ==
        if m.currency == a.source || m.currency == a.target then Meaning(b, Meaning(a, m).value)
        else if m.currency == b.source || m.currency == b.target then Meaning(a, Meaning(b, m).value)
        else None
  {
    var a, b, v := r.first, r.second, m.value;
    assert a.source != a.target && b.source != b.target;
    if a.source == b.source {
      OverThenTimes(v, a.rate, b.rate);
      OverThenTimes(v, b.rate, a.rate);
    } else if a.source == b.target {
      OverThenOver(v, a.rate, b.rate);
      TimesThenTimes(v, b.rate, a.rate);
      assert Product(a.rate, b.rate) == Product(b.rate, a.rate);
    } else if a.target == b.source {
      TimesThenTimes(v, a.rate, b.rate);
      OverThenOver(v, b.rate, a.rate);
      assert Product(a.rate, b.rate) == Product(b.rate, a.rate);
    } else {
      TimesThenOver(v, a.rate, b.rate);
      TimesThenOver(v, b.rate, a.rate);
    }
  }

  /** Exchanging there and back is the identity. */
  lemma ThereAndBack(r: Rate, m: Money)
    requires WellFormed(r) && Exchange(r, m).Some?
    ensures Exchange(r, Exchange(r, m).value) == Some(m)
  {
    ExchangeMeaning(r, m);
    var n := Exchange(r, m).value;
    ExchangeMeaning(r, n);
    MeaningInverts(r, m, n);
  }

  lemma MeaningInverts(r: Rate, m: Money, n: Money)
    requires r.source != r.target && Meaning(r, m) == Some(n)
    ensures Meaning(r, n) == Some(m)
  {
    assert m == Money(m.value, m.currency);
    OverTimes(m.value, r.rate);
  }

  // ----- when a chain applies to its own currencies only -----

  ghost predicate Applies(r: Rate, c: Currency) {
    Exchange(r, Money(1.0, c)).Some?
  }

  /** A chain of two well-formed rates applies to exactly its source and target if and only if
      these differ; when they coincide it also accepts the currency in between. */
  lemma AppliesExactlyIffProper(a: Rate, b: Rate, r: Rate)
    requires WellFormed(a) && WellFormed(b) && Chain(a, b) == Some(r)
    ensures (forall c :: Applies(r, c) <==> c == r.source || c == r.target) <==> r.source != r.target
  {
    if r.source != r.target {
      forall c ensures Applies(r, c) <==> c == r.source || c == r.target {
        ExchangeMeaning(r, Money(1.0, c));
      }
    } else {
      var middle := if a.source == r.source then a.target else a.source;
      ExchangeMeaning(a, Money(1.0, middle));
      var m := Exchange(a, Money(1.0, middle)).value;
      ExchangeMeaning(b, m);
      assert Applies(r, middle) && middle != r.source;
    }
  }

  /** Chaining a rate with itself gives a rate from USD to USD that accepts EUR. */
  lemma SelfChainAcceptsMiddle(a: Rate)
    requires a == Direct("EUR", "USD", 1.25)
    ensures Chain(a, a).Some? && Chain(a, a).value.source == Chain(a, a).value.target == "USD"
    ensures Applies(Chain(a, a).value, "EUR")
  {
    assert "EUR"[0] != "USD"[0];
    assert Exchange(a, Money(1.0, "EUR")) == Some(Money(Times(1.0, 1.25), "USD"));
  }
}

/**
 * The Credit value object: an immutable, non-negative amount kept to two
 * decimal places. Amounts are exact reals, so none of the binary
 * floating-point effects of the source's `number` arise here.
 */
module CreditValueObject {
  import opened Wrappers
  import opened Errors

  /**
   * `Math.round(amount * 100) / 100`, where `Math.round(x)` is `floor(x + 0.5)`:
   * a whole number of cents at most half a cent below the amount and less
   * than half a cent above it.
   */
  function Round2(amount: real): (r: real)
    ensures IsWholeCents(r)
    ensures r - 0.005 <= amount < r + 0.005
  {
    var k := (amount * 100.0 + 0.5).Floor;
    assert (k as real / 100.0) * 100.0 == k as real;
    k as real / 100.0
  }

  /** A whole number of cents. */
  predicate IsWholeCents(v: real) {
    (v * 100.0).Floor as real == v * 100.0
  }

  datatype Credit = Credit(value: real) {

    /** What every Credit the factories produce satisfies. */
    predicate Valid() {
      value >= 0.0 && IsWholeCents(value)
    }

    /**
     * Rejects a negative amount before rounding (so -0.01 fails even though
     * it would round to 0), then keeps the amount rounded to the nearest
     * cent, halves rounding up.
     */
    static function Create(amount: real): (r: Result<Credit, Error>)
      ensures r.Failure? <==> amount < 0.0
      ensures r.Failure? ==> r.error == ValidationError(CreditNegative)
      ensures r.Success? ==> r.value.value == Round2(amount) && r.value.Valid()
      ensures r.Success? ==> amount - 0.005 < r.value.value <= amount + 0.005
    {
      if amount < 0.0 then Failure(ValidationError(CreditNegative))
      else Success(Credit(Round2(amount)))
    }

    static function Zero(): (r: Credit)
      ensures r.Valid() && r.value == 0.0
    {
      Credit(0.0)
    }

    /** A new Credit for `value + amount`, through Create; the receiver is a value and is not changed. */
    function Add(amount: real): (r: Result<Credit, Error>)
      ensures r == Create(value + amount)
      ensures r.Failure? <==> value + amount < 0.0
      ensures Valid() && amount >= 0.0 ==> r.Success? && r.value.value >= value
    {
      RoundingStaysAbove(value, amount);
      Create(value + amount)
    }

    /** A new Credit for `value - amount`, through Create: taking more than the balance fails, it never clamps. */
    function Subtract(amount: real): (r: Result<Credit, Error>)
      ensures r == Create(value - amount)
      ensures r.Failure? <==> amount > value
      ensures Valid() && amount >= 0.0 && r.Success? ==> r.value.value <= value
    {
      RoundingStaysBelow(value, amount);
      Create(value - amount)
    }

    /** Credits are compared by value, so `equals` is equality of credits. */
    predicate Equals(other: Credit)
      ensures Equals(other) <==> this == other
    {
      value == other.value
    }

    predicate IsGreaterThan(other: Credit)
      ensures IsGreaterThan(other) ==> !Equals(other)
      ensures IsGreaterThan(other) <==> other.IsLessThan(this)
    {
      value > other.value
    }

    predicate IsLessThan(other: Credit)
      ensures IsLessThan(other) ==> !Equals(other)
    {
      value < other.value
    }
  }

  lemma RoundingStaysAbove(v: real, x: real)
    ensures IsWholeCents(v) && x >= 0.0 ==> Round2(v + x) >= v
  {
    if !(IsWholeCents(v) && x >= 0.0) { return; }
    var m := (v * 100.0).Floor;
    var k := ((v + x) * 100.0 + 0.5).Floor;
    assert (v + x) * 100.0 + 0.5 >= m as real + 0.5;
    assert k >= m;
    assert k as real >= v * 100.0;
  }

  lemma RoundingStaysBelow(v: real, x: real)
    ensures IsWholeCents(v) && x >= 0.0 ==> Round2(v - x) <= v
  {
    if !(IsWholeCents(v) && x >= 0.0) { return; }
    var m := (v * 100.0).Floor;
    var k := ((v - x) * 100.0 + 0.5).Floor;
    assert (v - x) * 100.0 + 0.5 <= m as real + 0.5;
    assert k <= m;
    assert k as real <= v * 100.0;
  }

  /**
   * Round2 is rounding to the nearest cent with halves going up: the one
   * whole-cent value v with v - 0.005 <= amount < v + 0.005.
   */
  lemma Round2IsNearestCent(amount: real, v: real)
    ensures v == Round2(amount) <==> IsWholeCents(v) && v - 0.005 <= amount < v + 0.005
  {
    var k := (amount * 100.0 + 0.5).Floor;
    assert Round2(amount) * 100.0 == k as real;
    if IsWholeCents(v) && v - 0.005 <= amount < v + 0.005 {
      var m := (v * 100.0).Floor;
      assert m as real - 0.5 <= amount * 100.0 < m as real + 0.5;
      assert m == k;
    }
  }

  /** A valid Credit survives being created again from its own value: reading it back from storage changes nothing. */
  lemma RecreateValid(c: Credit)
    requires c.Valid()
    ensures Credit.Create(c.value) == Success(c)
  {
    var m := (c.value * 100.0).Floor;
    assert (c.value * 100.0 + 0.5).Floor == m;
  }

  /** Rounding is idempotent. */
  lemma CreateIdempotent(amount: real)
    requires amount >= 0.0
    ensures Credit.Create(Credit.Create(amount).value.value) == Credit.Create(amount)
  {
    RecreateValid(Credit.Create(amount).value);
  }

  /** Exactly one of equal, greater and less holds between two credits, and equality of values is equality of credits. */
  lemma ComparisonTrichotomy(a: Credit, b: Credit)
    ensures a.Equals(b) <==> a == b
    ensures (a.Equals(b) && !a.IsGreaterThan(b) && !a.IsLessThan(b))
         || (!a.Equals(b) && a.IsGreaterThan(b) && !a.IsLessThan(b))
         || (!a.Equals(b) && !a.IsGreaterThan(b) && a.IsLessThan(b))
    ensures a.IsGreaterThan(b) <==> b.IsLessThan(a)
  {
  }

  /** The rounding cases the unit tests pin down, and the half-cent boundary. */
  lemma RoundingExamples()
    ensures Credit.Create(100.0) == Success(Credit(100.0))
    ensures Credit.Create(100.999) == Success(Credit(101.0))
    ensures Credit.Create(100.123) == Success(Credit(100.12))
    ensures Credit.Create(150.505) == Success(Credit(150.51))
    ensures Credit.Create(-0.01).Failure? && Credit.Create(-1.0).Failure?
    ensures Credit.Create(100.0).value.Add(50.0) == Success(Credit(150.0))
    ensures Credit.Create(100.0).value.Subtract(30.0) == Success(Credit(70.0))
  {
  }
}

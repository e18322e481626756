/**
 * PackageMetrics.java: four counters of a package (types, abstract types, afferent and
 * efferent couplings) and the three package metrics derived from them. The Java doubles
 * are modelled as exact reals.
 */
module Metrics {
  import opened Wrappers

  /** The decimal digits of `n`, as Java's string concatenation writes an int. */
  function DecimalDigits(n: nat): (s: string)
    ensures |s| >= 1 && Digits(s)
    ensures s[0] == '0' ==> n == 0
  {
    var d := [(('0' as int) + n % 10) as char];
    if n < 10 then d else DecimalDigits(n / 10) + d
  }

  /** Every character is a decimal digit. */
  predicate Digits(s: string) {
    forall i :: 0 <= i < |s| ==> '0' <= s[i] <= '9'
  }

  /** The number a string of decimal digits denotes, read from the most significant digit. */
  function DigitsValue(s: string): nat
    requires Digits(s)
  {
    if s == [] then 0
    else DigitsValue(s[..|s| - 1]) * 10 + (s[|s| - 1] as int - '0' as int)
  }

  /** The digits written for `n` denote `n`: the message carries the rejected value. */
  lemma {:induction false} DecimalDigitsValue(n: nat)
    ensures DigitsValue(DecimalDigits(n)) == n
  {
    if n >= 10 {
      var d := [(('0' as int) + n % 10) as char];
      var s := DecimalDigits(n / 10) + d;
      assert s[..|s| - 1] == DecimalDigits(n / 10);
      DecimalDigitsValue(n / 10);
    }
  }

  /** Check.notNegative's message: "argument <name> was negative: <value>". */
  function NegativeMessage(name: string, value: int): string
    requires value < 0
  {
    "argument " + name + " was negative: -" + DecimalDigits(-value)
  }

  /** The counters as one value. */
  datatype Counters = Counters(
    numberOfTypes: int,
    numberOfAbstractTypes: int,
    afferentCouplings: int,
    efferentCouplings: int)

  /**
   * getInstability: efferent couplings over total couplings, and 0 when there are none. With
   * non-negative counts it lies between 0 (completely stable) and 1 (completely instable).
   */
  function Instability(c: Counters): (i: real)
    ensures c.efferentCouplings + c.afferentCouplings == 0 ==> i == 0.0
    ensures c.efferentCouplings + c.afferentCouplings != 0 ==>
      i * (c.efferentCouplings + c.afferentCouplings) as real == c.efferentCouplings as real
    ensures c.efferentCouplings >= 0 && c.afferentCouplings >= 0 ==> 0.0 <= i <= 1.0
  {
    var total := (c.efferentCouplings + c.afferentCouplings) as real;
    if total != 0.0 then c.efferentCouplings as real / total else 0.0
  }

  /**
   * getAbstractness: abstract types over all types, and 0 for a package without types. Java's
   * `assert abstract <= types` is off unless assertions are enabled, so the ratio is returned
   * as computed; under that bound it lies between 0 (concrete) and 1 (totally abstract).
   */
  function Abstractness(c: Counters): (a: real)
    ensures c.numberOfTypes == 0 ==> a == 0.0
    ensures c.numberOfTypes != 0 ==> a * c.numberOfTypes as real == c.numberOfAbstractTypes as real
    ensures 0 <= c.numberOfAbstractTypes <= c.numberOfTypes ==> 0.0 <= a <= 1.0
  {
    if c.numberOfTypes == 0 then 0.0
    else c.numberOfAbstractTypes as real / c.numberOfTypes as real
  }

  /** Math.abs on reals. */
  function Abs(x: real): (r: real)
    ensures r >= 0.0 && (r == x || r == -x)
  {
    if x < 0.0 then -x else x
  }

  /**
   * getDistanceFromMainSequence: how far A + I lies from the main sequence A + I = 1; between
   * 0 (on it) and 1 (as far as can be) when A and I are in [0, 1].
   */
  function Distance(c: Counters): (d: real)
    ensures d >= 0.0
    ensures d == 0.0 <==> Abstractness(c) + Instability(c) == 1.0
    ensures (0 <= c.numberOfAbstractTypes <= c.numberOfTypes
             && c.efferentCouplings >= 0 && c.afferentCouplings >= 0) ==> d <= 1.0
  {
    Abs(Abstractness(c) + Instability(c) - 1.0)
  }

  class PackageMetrics {
    var numberOfTypes: int
    var numberOfAbstractTypes: int
    var afferentCouplings: int
    var efferentCouplings: int

    /** The setters keep every counter non-negative. */
    ghost predicate Valid()
      reads this
    {
      numberOfTypes >= 0 && numberOfAbstractTypes >= 0
      && afferentCouplings >= 0 && efferentCouplings >= 0
    }

    /** The counters of this object. */
    function Snapshot(): Counters
      reads this
    {
      Counters(numberOfTypes, numberOfAbstractTypes, afferentCouplings, efferentCouplings)
    }

    /** `new PackageMetrics()`: Java's default field values, all zero. */
    constructor ()
      ensures Valid() && Snapshot() == Counters(0, 0, 0, 0)
    {
      numberOfTypes := 0;
      numberOfAbstractTypes := 0;
      afferentCouplings := 0;
      efferentCouplings := 0;
    }

    /** setNumberOfTypes: a negative count is rejected and the field is kept. */
    method SetNumberOfTypes(n: int) returns (r: Outcome)
      modifies this`numberOfTypes
      ensures n < 0 ==> (r == Fail(IllegalArgument(NegativeMessage("numberOfTypes", n)))
                         && numberOfTypes == old(numberOfTypes))
      ensures n >= 0 ==> r == Pass && numberOfTypes == n
      ensures old(Valid()) ==> Valid()
    {
      if n < 0 {
        return Fail(IllegalArgument(NegativeMessage("numberOfTypes", n)));
      }
      numberOfTypes := n;
      r := Pass;
    }

    /** setNumberOfAbstractTypes: a negative count is rejected and the field is kept. */
    method SetNumberOfAbstractTypes(n: int) returns (r: Outcome)
      modifies this`numberOfAbstractTypes
      ensures n < 0 ==> (r == Fail(IllegalArgument(NegativeMessage("numberOfAbstractTypes", n)))
                         && numberOfAbstractTypes == old(numberOfAbstractTypes))
      ensures n >= 0 ==> r == Pass && numberOfAbstractTypes == n
      ensures old(Valid()) ==> Valid()
    {
      if n < 0 {
        return Fail(IllegalArgument(NegativeMessage("numberOfAbstractTypes", n)));
      }
      numberOfAbstractTypes := n;
      r := Pass;
    }

    /** setAfferentCouplings: a negative count is rejected and the field is kept. */
    method SetAfferentCouplings(n: int) returns (r: Outcome)
      modifies this`afferentCouplings
      ensures n < 0 ==> (r == Fail(IllegalArgument(NegativeMessage("afferentCouplings", n)))
                         && afferentCouplings == old(afferentCouplings))
      ensures n >= 0 ==> r == Pass && afferentCouplings == n
      ensures old(Valid()) ==> Valid()
    {
      if n < 0 {
        return Fail(IllegalArgument(NegativeMessage("afferentCouplings", n)));
      }
      afferentCouplings := n;
      r := Pass;
    }

    /** setEfferentCouplings: a negative count is rejected and the field is kept. */
    method SetEfferentCouplings(n: int) returns (r: Outcome)
      modifies this`efferentCouplings
      ensures n < 0 ==> (r == Fail(IllegalArgument(NegativeMessage("efferentCouplings", n)))
                         && efferentCouplings == old(efferentCouplings))
      ensures n >= 0 ==> r == Pass && efferentCouplings == n
      ensures old(Valid()) ==> Valid()
    {
      if n < 0 {
        return Fail(IllegalArgument(NegativeMessage("efferentCouplings", n)));
      }
      efferentCouplings := n;
      r := Pass;
    }

    /** getInstability on this object's counters. */
    function GetInstability(): (i: real)
      reads this
      ensures Valid() ==> 0.0 <= i <= 1.0
    {
      Instability(Snapshot())
    }

    /** getAbstractness on this object's counters. */
    function GetAbstractness(): (a: real)
      reads this
      ensures Valid() && numberOfAbstractTypes <= numberOfTypes ==> 0.0 <= a <= 1.0
    {
      Abstractness(Snapshot())
    }

    /** getDistanceFromMainSequence on this object's counters. */
    function GetDistanceFromMainSequence(): (d: real)
      reads this
      ensures Valid() && numberOfAbstractTypes <= numberOfTypes ==> 0.0 <= d <= 1.0
    {
      Distance(Snapshot())
    }
  }

  /** A fresh metrics object: abstractness 0, instability 0, so distance 1. */
  lemma FreshMetrics()
    ensures Abstractness(Counters(0, 0, 0, 0)) == 0.0
    ensures Instability(Counters(0, 0, 0, 0)) == 0.0
    ensures Distance(Counters(0, 0, 0, 0)) == 1.0
  {
  }

  /**
   * Three types, one of them abstract, one efferent and three afferent couplings:
   * A = 1/3, I = 1/4 and D = |1/3 + 1/4 - 1| = 5/12.
   */
  lemma ThreeTypesOneAbstract()
    ensures Abstractness(Counters(3, 1, 3, 1)) == 1.0 / 3.0
    ensures Instability(Counters(3, 1, 3, 1)) == 1.0 / 4.0
    ensures Distance(Counters(3, 1, 3, 1)) == 5.0 / 12.0
  {
  }
}

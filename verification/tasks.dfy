/** The two background jobs of tasks.py, without the job-queue decorator and
    the three-second sleep: an integer sum and a factorial that answers a
    sentinel instead of a number for negative input. */
module Tasks {

  /** `calcular_soma`: Python integers do not overflow, so neither does this sum. */
  function Sum(a: int, b: int): (r: int)
    ensures r - b == a && r - a == b
  {
    a + b
  }

  /** What `calcular_fatorial` returns: the "invalid value" text or a number. */
  datatype FactorialResult = Invalid | Value(n: nat)

  /** The product 1 * 2 * … * n (`math.factorial`). */
  function Fact(n: nat): (r: nat)
    ensures r >= 1
    ensures r >= n
  {
    if n == 0 then 1 else n * Fact(n - 1)
  }

  /** `calcular_fatorial`: the sentinel exactly for negative input, otherwise n!. */
  function Factorial(a: int): (r: FactorialResult)
    ensures r.Invalid? <==> a < 0
    ensures r.Value? ==> r.n >= 1
  {
    if a < 0 then Invalid else Value(Fact(a))
  }

  /** The factorial computed as a running product 1 * 2 * … * a; it agrees
      with the recursive definition on every input. */
  method FactorialLoop(a: int) returns (r: FactorialResult)
    ensures r == Factorial(a)
  {
    if a < 0 {
      return Invalid;
    }
    var acc: nat := 1;
    var i: nat := 0;
    while i < a
      invariant i <= a
      invariant acc == Fact(i)
    {
      i := i + 1;
      acc := acc * i;
    }
    return Value(acc);
  }

  /** n! = n * (n-1)! for every n >= 1. */
  lemma FactorialRecurrence(n: int)
    requires n >= 1
    ensures Factorial(n).Value? && Factorial(n - 1).Value?
    ensures Factorial(n).n == n * Factorial(n - 1).n
  {
  }

  /** The cases the job's tests exercise: 5 + 3 = 8, 5! = 120, 0! = 1. */
  lemma SuiteExamples()
    ensures Sum(5, 3) == 8
    ensures Factorial(5) == Value(120)
    ensures Factorial(0) == Value(1)
  {
    assert Fact(3) == 6;
    assert Fact(5) == 120;
  }

  /** A negative argument gets the "invalid value" answer, not a number. */
  lemma NegativeExample()
    ensures Factorial(-1) == Invalid
  {
  }
}

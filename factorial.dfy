/** The factorial variants of the tail-recursion experiments
    (`python/experiments/test-tailrec.py` and its copy `python/test-tailrec.py`)
    and of the doctest experiment (`python/experiments/test-doctest.py`). */
module Factorial {

  /** `fact_rec`: 1 at or below 0, otherwise `n * fact_rec(n - 1)`. */
  function FactRec(n: int): (r: int)
    ensures r >= 1
    ensures n >= 1 ==> r >= n
    decreases if n <= 0 then 0 else n
  {
    if n <= 0 then 1 else n * FactRec(n - 1)
  }

  /** `fact_iter`: multiply `acc` by `1, 2, ..., n`; for `n <= 0` the loop
      runs zero times. */
  method FactIter(n: int) returns (acc: int)
    ensures acc == FactRec(n)
  {
    acc := 1;
    var i := 1;
    while i <= n
      invariant 1 <= i <= (if n >= 1 then n + 1 else 1)
      invariant acc == FactRec(i - 1)
    {
      assert FactRec(i) == i * FactRec(i - 1) == acc * i;
      acc := acc * i;
      i := i + 1;
    }
  }

  /** The inner `fact(n, acc)` of `fact_tailrec`: counts `n` down to 0,
      multiplying it into the accumulator. The source never stops for a
      negative `n`, so the model requires `n >= 0`. */
  function TailFact(n: int, acc: int): (r: int)
    requires n >= 0
    decreases n
  {
    if n == 0 then acc else TailFact(n - 1, n * acc)
  }

  /** The accumulator invariant of the inner `fact`: the result is `acc`
      times the factorial of what is left to count. */
  lemma {:induction false} TailFactIsProduct(n: int, acc: int)
    requires n >= 0
    ensures TailFact(n, acc) == acc * FactRec(n)
    decreases n
  {
    if n > 0 {
      TailFactIsProduct(n - 1, n * acc);
      assert FactRec(n) == n * FactRec(n - 1);
      MulRegroup(n, acc, FactRec(n - 1));
    }
  }

  lemma MulRegroup(a: int, b: int, c: int)
    ensures (a * b) * c == b * (a * c)
  {
  }

  /** `fact_tailrec(n)` is `fact(n, acc=1)`, and so agrees with `fact_rec`
      and with `fact_iter`. */
  function FactTailrec(n: int): (r: int)
    requires n >= 0
    ensures r == FactRec(n)
  {
    TailFactIsProduct(n, 1);
    TailFact(n, 1)
  }

  /** The doctest's `fact`: 1 at or below 1, otherwise `n * fact(n - 1)`. */
  function DocFact(n: int): (r: int)
    ensures r >= 1
    decreases if n <= 1 then 0 else n
  {
    if n <= 1 then 1 else n * DocFact(n - 1)
  }

  /** The doctest's `fact` is `fact_rec` on every integer: the extra base case
      at 1 gives the same value, and both are 1 below it. */
  lemma {:induction false} DocFactIsFactRec(n: int)
    ensures DocFact(n) == FactRec(n)
    decreases if n <= 1 then 0 else n
  {
    if n > 1 {
      DocFactIsFactRec(n - 1);
    }
  }

  /** The examples of the docstrings: `fact(5) == 120` and the first six
      values. */
  lemma DocFactExamples()
    ensures [DocFact(0), DocFact(1), DocFact(2), DocFact(3), DocFact(4), DocFact(5)] ==
      [1, 1, 2, 6, 24, 120]
    ensures DocFact(5) == 120
  {
    assert DocFact(2) == 2;
    assert DocFact(3) == 6;
    assert DocFact(4) == 24;
  }

  /** The docstring's last example expects `fact(-1)` to be 0; the code
      returns 1 there, as for every `n <= 1`. */
  lemma DocFactNegative(n: int)
    requires n < 0
    ensures DocFact(n) == 1 && DocFact(n) != 0
  {
  }

  /** `fact` as its docstring reads it: 0 for a negative argument, the
      factorial of every other one. */
  function DocFactIntended(n: int): (r: int)
    ensures n < 0 ==> r == 0
    ensures n >= 0 ==> r == FactRec(n) && r >= 1
  {
    if n < 0 then 0
    else
      DocFactIsFactRec(n);
      DocFact(n)
  }

  /** Every example of both docstrings holds for the intended `fact`,
      `fact(-1) == 0` included. */
  lemma DocFactIntendedPassesDoctest()
    ensures [DocFactIntended(0), DocFactIntended(1), DocFactIntended(2),
             DocFactIntended(3), DocFactIntended(4), DocFactIntended(5)] == [1, 1, 2, 6, 24, 120]
    ensures DocFactIntended(5) == 120
    ensures DocFactIntended(-1) == 0
  {
    DocFactExamples();
  }
}

/**
 The one-dimensional convolution of the CPU backend, over real numbers.

 The windowed loop computes, at every index, the full sum of products whose indices add up
 to it; the operation is commutative, and read as coefficients it multiplies polynomials.
 */
module Convolution {

  type Signal = seq<real>

  /** The value at `i`, zero outside. */
  function At(s: Signal, i: int): real {
    if 0 <= i < |s| then s[i] else 0.0
  }

  /** Multiplication under a name, so that products are compared as terms. */
  function Times(a: real, b: real): real {
    a * b
  }

  /** Sum over lo <= j < hi of data[j] * kernel[i - j], both extended by zero. */
  function RangeSum(kernel: Signal, data: Signal, i: int, lo: int, hi: int): real
    decreases hi - lo
  {
    if lo >= hi then 0.0
    else RangeSum(kernel, data, i, lo, hi - 1) + Times(At(data, hi - 1), At(kernel, i - (hi - 1)))
  }

  /** The full sum over all pairs of indices adding up to `i`. */
  function Coefficient(kernel: Signal, data: Signal, i: nat): real {
    RangeSum(kernel, data, i, 0, i + 1)
  }

  function Convolved(kernel: Signal, data: Signal): Signal {
    if kernel == [] || data == [] then []
    else seq(|data| + |kernel| - 1, i requires 0 <= i < |data| + |kernel| - 1 => Coefficient(kernel, data, i))
  }

  // ---------------------------------------------------------------------------------- the loops

  lemma {:induction false} SumOfZeros(kernel: Signal, data: Signal, i: int, lo: int, hi: int)
    requires forall j :: lo <= j < hi ==> At(data, j) == 0.0 || At(kernel, i - j) == 0.0
    ensures RangeSum(kernel, data, i, lo, hi) == 0.0
    decreases hi - lo
  {
    if lo < hi {
      SumOfZeros(kernel, data, i, lo, hi - 1);
      assert At(data, hi - 1) == 0.0 || At(kernel, i - (hi - 1)) == 0.0;
    }
  }

  lemma {:induction false} SumSplit(kernel: Signal, data: Signal, i: int, lo: int, mid: int, hi: int)
    requires lo <= mid <= hi
    ensures RangeSum(kernel, data, i, lo, hi) == RangeSum(kernel, data, i, lo, mid) + RangeSum(kernel, data, i, mid, hi)
    decreases hi - mid
  {
    if mid < hi {
      SumSplit(kernel, data, i, lo, mid, hi - 1);
    }
  }

  /** The window drops only products with a factor outside the inputs. */
  lemma WindowIsCoefficient(kernel: Signal, data: Signal, i: nat, start: nat, end: nat)
    requires kernel != [] && data != [] && i < |data| + |kernel| - 1
    requires start == if i + 1 >= |kernel| then i + 1 - |kernel| else 0
    requires end == if i < |data| - 1 then i else |data| - 1
    ensures start <= end + 1 <= |data|
    ensures RangeSum(kernel, data, i, start, end + 1) == Coefficient(kernel, data, i)
  {
    SumSplit(kernel, data, i, 0, start, i + 1);
    SumSplit(kernel, data, i, start, end + 1, i + 1);
    SumOfZeros(kernel, data, i, 0, start);
    SumOfZeros(kernel, data, i, end + 1, i + 1);
  }

  method Convolve1d(kernel: Signal, data: Signal) returns (result: array<real>)
    ensures result[..] == Convolved(kernel, data)
  {
    if kernel == [] || data == [] {
      return new real[0];
    }
    var outLen := |data| + |kernel| - 1;
    result := new real[outLen](_ => 0.0);
    for i := 0 to outLen
      invariant result.Length == outLen
      invariant forall k :: 0 <= k < i ==> result[k] == Coefficient(kernel, data, k)
    {
      var sum := 0.0;
      var start := if i + 1 >= |kernel| then i + 1 - |kernel| else 0;
      var end := if i < |data| - 1 then i else |data| - 1;
      WindowIsCoefficient(kernel, data, i, start, end);
      for j := start to end + 1
        invariant sum == RangeSum(kernel, data, i, start, j)
      {
        var kIdx := i - j;
        if kIdx < |kernel| {
          sum := sum + data[j] * kernel[kIdx];
        }
      }
      result[i] := sum;
    }
  }

  // ------------------------------------------------------------------------------- commutativity

  lemma {:induction false} SumFromFront(kernel: Signal, data: Signal, i: int, lo: int, hi: int)
    requires lo < hi
    ensures RangeSum(kernel, data, i, lo, hi) ==
            Times(At(data, lo), At(kernel, i - lo)) + RangeSum(kernel, data, i, lo + 1, hi)
    decreases hi - lo
  {
    if lo + 1 < hi {
      SumFromFront(kernel, data, i, lo, hi - 1);
    }
  }

  lemma {:induction false} SumReversed(kernel: Signal, data: Signal, i: int, n: nat)
    ensures RangeSum(kernel, data, i, 0, n) == RangeSum(data, kernel, i, i + 1 - n, i + 1)
    decreases n
  {
    if n == 0 {
    } else {
      SumReversed(kernel, data, i, n - 1);
      SumFromFront(data, kernel, i, i + 1 - n, i + 1);
    }
  }

  lemma Commutative(kernel: Signal, data: Signal)
    ensures Convolved(kernel, data) == Convolved(data, kernel)
  {
    forall i: nat
      ensures Coefficient(kernel, data, i) == Coefficient(data, kernel, i)
    {
      SumReversed(kernel, data, i, i + 1);
    }
  }

  // ------------------------------------------------------------------------ polynomial product

  /** The polynomial with the given coefficients, lowest first, at `x`. */
  function Eval(c: Signal, x: real): real {
    if c == [] then 0.0 else c[0] + x * Eval(c[1..], x)
  }

  function Tail(s: Signal): Signal {
    if s == [] then [] else s[1..]
  }

  function Scale(a: real, s: Signal): Signal {
    seq(|s|, i requires 0 <= i < |s| => Times(a, s[i]))
  }

  function Max(a: nat, b: nat): nat {
    if a > b then a else b
  }

  function Plus(a: Signal, b: Signal): Signal {
    seq(Max(|a|, |b|), i => At(a, i) + At(b, i))
  }

  lemma EvalHead(s: Signal, x: real)
    ensures Eval(s, x) == At(s, 0) + Times(x, Eval(Tail(s), x))
  {
  }

  lemma TimesPlus(a: real, b: real, c: real)
    ensures Times(a, b + c) == Times(a, b) + Times(a, c)
    ensures Times(b + c, a) == Times(b, a) + Times(c, a)
  {
  }

  lemma {:induction false} EvalScale(a: real, s: Signal, x: real)
    ensures Eval(Scale(a, s), x) == Times(a, Eval(s, x))
  {
    if s == [] {
    } else {
      EvalScale(a, s[1..], x);
      assert Tail(Scale(a, s)) == Scale(a, s[1..]);
      EvalHead(Scale(a, s), x);
      EvalHead(s, x);
      TimesPlus(a, s[0], Times(x, Eval(s[1..], x)));
    }
  }

  lemma PlusTail(a: Signal, b: Signal)
    ensures Tail(Plus(a, b)) == Plus(Tail(a), Tail(b))
    ensures At(Plus(a, b), 0) == At(a, 0) + At(b, 0)
  {
  }

  lemma {:induction false} EvalPlus(a: Signal, b: Signal, x: real)
    ensures Eval(Plus(a, b), x) == Eval(a, x) + Eval(b, x)
    decreases |a| + |b|
  {
    if a != [] || b != [] {
      EvalPlus(Tail(a), Tail(b), x);
      PlusTail(a, b);
      EvalHead(Plus(a, b), x);
      EvalHead(a, x);
      EvalHead(b, x);
      TimesPlus(x, Eval(Tail(a), x), Eval(Tail(b), x));
    }
  }

  /** Multiplying out, one coefficient of `data` at a time. */
  function Product(kernel: Signal, data: Signal): Signal {
    if data == [] then [] else Plus(Scale(data[0], kernel), [0.0] + Product(kernel, data[1..]))
  }

  lemma EvalShift(s: Signal, x: real)
    ensures Eval([0.0] + s, x) == Times(x, Eval(s, x))
  {
    assert ([0.0] + s)[1..] == s;
  }

  /** One step of multiplying out, as an identity on numbers. */
  lemma MultiplyOut(d0: real, k: real, x: real, d: real)
    ensures Times(d0, k) + Times(x, Times(k, d)) == Times(k, d0 + Times(x, d))
  {
    TimesPlus(k, d0, Times(x, d));
  }

  lemma {:induction false} EvalProduct(kernel: Signal, data: Signal, x: real)
    ensures Eval(Product(kernel, data), x) == Times(Eval(kernel, x), Eval(data, x))
  {
    if data == [] {
    } else {
      var rest := Product(kernel, data[1..]);
      EvalProduct(kernel, data[1..], x);
      EvalPlus(Scale(data[0], kernel), [0.0] + rest, x);
      EvalScale(data[0], kernel, x);
      EvalShift(rest, x);
      MultiplyOut(data[0], Eval(kernel, x), x, Eval(data[1..], x));
      EvalHead(data, x);
    }
  }

  lemma {:induction false} SumOfTail(kernel: Signal, data: Signal, i: int, lo: int, hi: int)
    requires data != [] && lo >= 0
    ensures RangeSum(kernel, data, i, lo + 1, hi + 1) == RangeSum(kernel, data[1..], i - 1, lo, hi)
    decreases hi - lo
  {
    if lo < hi {
      SumOfTail(kernel, data, i, lo, hi - 1);
      assert At(data, hi) == At(data[1..], hi - 1);
    }
  }

  lemma {:induction false} ProductLength(kernel: Signal, data: Signal)
    requires kernel != [] && data != []
    ensures |Product(kernel, data)| == |kernel| + |data| - 1
  {
    if |data| > 1 {
      ProductLength(kernel, data[1..]);
    }
  }

  /** The coefficient, with the first element of `data` taken out. */
  lemma CoefficientStep(kernel: Signal, data: Signal, i: nat)
    requires data != []
    ensures Coefficient(kernel, data, i)
         == Times(data[0], At(kernel, i)) + if i == 0 then 0.0 else Coefficient(kernel, data[1..], i - 1)
  {
    SumFromFront(kernel, data, i, 0, i + 1);
    SumOfTail(kernel, data, i, 0, i);
  }

  lemma {:induction false} ProductAt(kernel: Signal, data: Signal, i: nat)
    ensures At(Product(kernel, data), i) == Coefficient(kernel, data, i)
    decreases data
  {
    if data == [] {
      SumOfZeros(kernel, data, i, 0, i + 1);
    } else {
      CoefficientStep(kernel, data, i);
      if i > 0 {
        ProductAt(kernel, data[1..], i - 1);
      }
    }
  }

  lemma ConvolvedIsProduct(kernel: Signal, data: Signal)
    requires kernel != [] && data != []
    ensures Convolved(kernel, data) == Product(kernel, data)
  {
    var (c, p) := (Convolved(kernel, data), Product(kernel, data));
    ProductLength(kernel, data);
    forall i | 0 <= i < |c|
      ensures c[i] == p[i]
    {
      ProductAt(kernel, data, i);
      assert At(p, i) == p[i];
    }
  }

  /** Convolution multiplies polynomials: evaluating the result is multiplying the evaluations. */
  lemma {:induction false} ConvolutionMultiplies(kernel: Signal, data: Signal, x: real)
    ensures Eval(Convolved(kernel, data), x) == Eval(kernel, x) * Eval(data, x)
  {
    if kernel != [] && data != [] {
      ConvolvedIsProduct(kernel, data);
      EvalProduct(kernel, data, x);
    }
  }

  // --------------------------------------------------------------------------- not a correlation

  function Reversed(s: Signal): (r: Signal)
    ensures |r| == |s|
  {
    seq(|s|, i requires 0 <= i < |s| => s[|s| - 1 - i])
  }

  /** Sum over the first `n` kernel positions j of data[i + j - (m - 1)] * kernel[j]. */
  function CorrelationSum(kernel: Signal, data: Signal, i: int, n: nat): real {
    if n == 0 then 0.0
    else
      CorrelationSum(kernel, data, i, n - 1) + Times(At(data, i + (n - 1) - (|kernel| - 1)), At(kernel, n - 1))
  }

  /** Full cross-correlation: the kernel slides over the data without being turned round. */
  function Correlated(kernel: Signal, data: Signal): Signal {
    if kernel == [] || data == [] then []
    else
      seq(|data| + |kernel| - 1,
          i requires 0 <= i < |data| + |kernel| - 1 => CorrelationSum(kernel, data, i, |kernel|))
  }

  /** The same products, indexed by the data position. */
  lemma {:induction false} CorrelationAsRange(kernel: Signal, data: Signal, i: int, n: nat)
    requires n <= |kernel|
    ensures CorrelationSum(kernel, data, i, n) ==
            RangeSum(Reversed(kernel), data, i, i - (|kernel| - 1), i - (|kernel| - 1) + n)
  {
    if n == 0 {
    } else {
      CorrelationAsRange(kernel, data, i, n - 1);
      var l := i - (|kernel| - 1) + n - 1;
      assert At(Reversed(kernel), i - l) == At(kernel, n - 1);
    }
  }

  lemma RangeIsCoefficient(kernel: Signal, data: Signal, i: nat)
    requires kernel != []
    ensures RangeSum(kernel, data, i, i - (|kernel| - 1), i + 1) == Coefficient(kernel, data, i)
  {
    var first := i - (|kernel| - 1);
    if first <= 0 {
      SumSplit(kernel, data, i, first, 0, i + 1);
      SumOfZeros(kernel, data, i, first, 0);
    } else {
      SumSplit(kernel, data, i, 0, first, i + 1);
      SumOfZeros(kernel, data, i, 0, first);
    }
  }

  /** Correlating with a kernel is convolving with the kernel read backwards. */
  lemma CorrelationIsReversedConvolution(kernel: Signal, data: Signal)
    ensures Correlated(kernel, data) == Convolved(Reversed(kernel), data)
  {
    if kernel != [] && data != [] {
      forall i: nat
        ensures CorrelationSum(kernel, data, i, |kernel|) == Coefficient(Reversed(kernel), data, i)
      {
        CorrelationAsRange(kernel, data, i, |kernel|);
        RangeIsCoefficient(Reversed(kernel), data, i);
      }
    }
  }

  lemma UnitCoefficient(kernel: Signal, i: nat)
    ensures Coefficient(kernel, [1.0], i) == At(kernel, i)
  {
    SumFromFront(kernel, [1.0], i, 0, i + 1);
    SumOfZeros(kernel, [1.0], i, 1, i + 1);
  }

  /** A single unit sample returns the kernel. */
  lemma UnitReturnsKernel(kernel: Signal)
    ensures Convolved(kernel, [1.0]) == kernel
  {
    if kernel != [] {
      forall i | 0 <= i < |kernel|
        ensures Convolved(kernel, [1.0])[i] == kernel[i]
      {
        UnitCoefficient(kernel, i);
      }
    }
  }

  /** The operation is a cross-correlation exactly for kernels that read the same backwards. */
  lemma {:induction false} CorrelationIffPalindrome(kernel: Signal)
    ensures (forall data :: Convolved(kernel, data) == Correlated(kernel, data)) <==> Reversed(kernel) == kernel
  {
    UnitReturnsKernel(kernel);
    UnitReturnsKernel(Reversed(kernel));
    forall data
      ensures Correlated(kernel, data) == Convolved(Reversed(kernel), data)
    {
      CorrelationIsReversedConvolution(kernel, data);
    }
    assert Correlated(kernel, [1.0]) == Reversed(kernel);
  }
}

/** try_std_swap: the exchange of two values, generic over any type with an equality
    operator. The operator is a parameter because C++'s operator== need not be reflexive
    (a floating-point NaN is unequal to itself). */
module Swap {

  /** Copies x and y into locals, exchanges the copies only when x != y (the negation of
      eq), and reports whether the copies ended up equal to each other's original value;
      the caller's x and y are passed by value and never change. */
  method TrySwap<T>(x: T, y: T, eq: (T, T) -> bool) returns (ok: bool)
    ensures ok == if eq(x, y) then eq(x, y) && eq(y, x) else eq(y, y) && eq(x, x)
    ensures eq(x, x) && eq(y, y) && (eq(x, y) ==> eq(y, x)) ==> ok
    ensures !eq(x, y) && (!eq(x, x) || !eq(y, y)) ==> !ok
  {
    var a, b := x, y;
    if !eq(x, y) {
      a, b := b, a;
    }
    ok := eq(a, y) && eq(b, x);
  }

  /** The "std::swap is correct" test case: two int pairs and two char pairs, compared
      with their built-in equality. */
  method SwapTestCase() returns (passed: bool)
    ensures passed
  {
    var r1 := TrySwap(1, 2, (u: int, v: int) => u == v);
    var r2 := TrySwap(2, 3, (u: int, v: int) => u == v);
    var r3 := TrySwap('a', 'b', (u: char, v: char) => u == v);
    var r4 := TrySwap('x', 'y', (u: char, v: char) => u == v);
    passed := r1 && r2 && r3 && r4;
  }
}

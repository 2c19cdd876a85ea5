# Rotation and swap exercises, modelled in Dafny

The repository holds two interview exercises with their unit tests.

* `interview::rotate` moves the first `count` characters of a string to its end. The offset is clamped to the string's length first, so no offset is rejected. The result is built from two `substr` calls and one concatenation.
* The rotation tests run against a small fixture table. One entry is the example from the exercise statement. The other is generated by `test_data::make_use_case`. That function grows a string to a target length by appending prefixes of a fixed 52-letter alphabet in a `while` loop. It returns the string, the offset and the expected rotation. `try_rotate` compares `rotate`'s result with the expected string.
* `try_std_swap` copies two values into locals. It exchanges the copies with `std::swap` only when the values differ. It reports whether the copies ended up exchanged. The result is `true` for every type whose `==` is an equivalence. It is `false` when the values differ and either is unequal to itself, as a floating-point NaN is.

Modules:

* `StdString` (`std_string.dfy`) models the `std::string` behaviour the code relies on. `substr` throws `std::out_of_range` when its position is past the end; this becomes the `OutOfRange` outcome. `substr` also cuts an over-long count down to what is left. It also models `std::min`.
* `Rotation` (`rotation.dfy`) models `interview::rotate` as a pure function, with lemmas for the length, the index mapping, the boundary identities, the inverse, composition and permutation.
* `TestData` (`test_data.dfy`) models `make_use_case` as a method with the original `while` loop, proved against the specification function `Cycled`. It also models the fixture table and `try_rotate`.
* `Swap` (`swap.dfy`) models `try_std_swap` as a generic method that takes the type's `==` as a function parameter and exchanges with a parallel assignment. It also models the test case.
* `ModArith` (`mod_arith.dfy`) holds the remainder arithmetic used by the index proofs.

`rotate` clamps an over-long offset instead of wrapping it, so `rotate(s, |s| + 1) == s` rather than `rotate(s, 1)`. `Rotation.ClampIsNotModulo` shows the difference on a two-character string.

`make_use_case` appends `cs.substr(0, std::min(length, length - s.length()))` (rotate_tests.cpp:92). The first argument of that `min` never decides the result. Each block is at most the alphabet only because `substr` cuts its count down. The model keeps the call as written and relies on the modelled `substr` for that cut.

## Model

| member | source | states |
|---|---|---|
| `StdString.Min` | src/rotate_tests/rotate_tests.cpp:174 | `std::min` returns one of its arguments, and that argument is no larger than the other |
| `StdString.Substr` | src/rotate_tests/rotate_tests.cpp:92 | `substr(pos, count)` fails exactly when `pos` is past the end. Otherwise it returns `min(count, |s| - pos)` characters copied from `pos` on |
| `StdString.SubstrFrom` | src/rotate_tests/rotate_tests.cpp:94 | `substr(pos)` fails exactly when `pos > |s|`. Otherwise it returns the whole suffix from `pos` |
| `Rotation.Rotate` | src/rotate_tests/rotate_tests.cpp:171-176 | the rotated string has the same length as the input for every offset, including on the empty string |
| `Rotation.RotateSlices` | src/rotate_tests/rotate_tests.cpp:174-175 | the result is `s[k..] + s[..k]`, where `k = min(count, |s|)` is the clamped offset |
| `Rotation.RotateIndex` | src/rotate_tests/rotate_tests.cpp:175 | index `i` of the result holds `s[(i + k) % |s|]`, where `k` is the clamped offset |
| `Rotation.RotateMoves` | src/rotate_tests/rotate_tests.cpp:174-175 | the character at index `j` moves to index `(j - k) mod |s|` |
| `Rotation.RotateZero` | src/rotate_tests/rotate_tests.cpp:174-175 | rotating by 0 returns the input |
| `Rotation.RotateOverLong` | src/rotate_tests/rotate_tests.cpp:174 | every offset `>= |s|` is clamped to `|s|` and returns the input unchanged |
| `Rotation.RotatePermutes` | src/rotate_tests/rotate_tests.cpp:175 | the result has the same multiset of characters as the input |
| `Rotation.RotateInverse` | src/rotate_tests/rotate_tests.cpp:175 | for `k <= |s|`, rotating by `|s| - k` undoes a rotation by `k` |
| `Rotation.RotateCompose` | src/rotate_tests/rotate_tests.cpp:174-175 | for offsets `k1, k2 <= |s|` on a non-empty string, rotating by `k1` then `k2` is rotating by `(k1 + k2) % |s|` |
| `Rotation.RotateExample` | src/rotate_tests/rotate_tests.cpp:70 | `rotate("RotateThisString", 5) == "eThisStringRotat"` |
| `Rotation.ClampIsNotModulo` | src/rotate_tests/rotate_tests.cpp:174 | the offset 3 on `"ab"` leaves it unchanged, while the offset 1 (3 mod 2) gives `"ba"` |
| `TestData.Cycled` | src/rotate_tests/rotate_tests.cpp:91-93 | the repeated alphabet cut to `length` has exactly `length` characters |
| `TestData.CycledAt` | src/rotate_tests/rotate_tests.cpp:85-99 | character `i` of the generated string is `cs[i % |cs|]` |
| `TestData.CycledUnique` | src/rotate_tests/rotate_tests.cpp:91-93 | any string that follows the `cs[i % |cs|]` pattern at every index is the generated string of its length |
| `TestData.MakeUseCase` | src/rotate_tests/rotate_tests.cpp:85-95 | the loop terminates and the string has exactly `length` characters, repeating the alphabet. The expected component is `rotate(s, rotation)`. The call fails with `out_of_range` exactly when `rotation > length` |
| `TestData.TryRotate` | src/rotate_tests/rotate_tests.cpp:201-209 | the check passes exactly when `expected` has the input's length and holds `s[(i + min(count, |s|)) % |s|]` at each index `i` |
| `TestData.UseCases` | src/rotate_tests/rotate_tests.cpp:69-73 | the fixture table holds the exercise example and a generated billion-character input rotated by a million. Both entries pass `try_rotate` |
| `Swap.TrySwap` | src/swap_tests/test_swap.cpp:37-47 | the result is `eq(x, y) && eq(y, x)` when `x == y`, where no exchange happens. Otherwise it is `eq(y, y) && eq(x, x)`. So it is `true` whenever `==` is reflexive and symmetric on `x` and `y`. It is `false` when `x != y` and either value is unequal to itself, as a NaN is |
| `Swap.SwapTestCase` | src/swap_tests/test_swap.cpp:60-65 | `try_std_swap` returns `true` on `(1, 2)`, `(2, 3)`, `('a', 'b')` and `('x', 'y')` |

## Left out

- `elapsed_timer`, `elapsed_string` and `render_performance` (rotate_tests.cpp:107-155, 185-189): they read a wall clock and format a floating-point duration.
- `render_use_case_summary` and the `WARN`, `REQUIRE` and `TEST_CASE` macros: these are console and test-runner glue. Their concrete inputs and expected results appear in `TestData.UseCases` and `Swap.SwapTestCase`.
- The process-wide static `test_data::_data` and its load-time initialisation are left out. The fixture table is an ordinary method, `TestData.UseCases`.
- `TestData.MakeUseCase`: `s.reserve(length)` (rotate_tests.cpp:88) and `s +=` (rotate_tests.cpp:92) throw `std::length_error` past `max_size()`, and allocation can throw `std::bad_alloc`. The model has no maximum string size and no allocator, so `MakeUseCase` never fails because of `length`.
- The performance claims are left out: they concern time, not values.
- `std::size_t` is modelled as an unbounded `nat`. No arithmetic in the code can wrap: `length - s.length()` is only evaluated while `s.length() < length`.
- The `Swappable` concept (test_swap.cpp:24) is not modelled. The type's `operator==` becomes the parameter `eq`. Dafny exchanges values with a parallel assignment, so no exchange operation needs to be required.
- `Swap.TrySwap`: `x != y` is modelled as `!eq(x, y)`. This assumes the type's `operator!=` is the negation of its `operator==`, which is C++20's default when `!=` is not declared.

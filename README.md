# CPP-Safe slices and ranges, in Dafny

CPP-Safe is a set of C++ macros and helpers that give C++ a simpler surface
syntax. Apart from one-line example functions and a stream-formatting helper,
its runtime logic is in `examples/slices_ranges.cpp`. That file has two
helpers:

- `slice(vec, start, end)` copies the half-open window `[start, end)` out of a
  vector, for element types that the vector's iterator does not convert to
  (see "## Left out"). Before that it checks the indices and throws
  `std::out_of_range("Invalid slice indices")` when `start >= size`,
  `end > size` or `start >= end`. Because the check is strict, an empty
  window is always refused.
- `range(start, end, step)` is a macro that expands to an immediately invoked
  lambda over three `int`s. The lambda grows a local `std::vector<int>` with
  `for (int i = s; i < e; i += st) r.push_back(i)`.

The model has two modules:

- `Slicing` (`slicing.dfy`). `slice` is pure code, so it is a function over
  `seq<T>`. It returns `SliceResult`: either `Ok(elems)` or
  `OutOfRange(what)`, which stands for the exception and carries its
  message. `size_t` indices are `nat`. The vector is passed by `const&`, and
  in the model it is an immutable sequence value, so `slice` cannot change its
  input.
- `Ranges` (`ranges.dfy`). The lambda is imperative, so it is a method with a
  `while` loop that appends to a local sequence. Its arguments and elements
  are `Int32`, a newtype for the C++ 32-bit `int`. Because of that type, the
  verifier checks that `i += st` never overflows. Signed overflow is
  undefined behaviour in C++.
  - The method is proved against `RangeOf`, a recursive reference definition
    over unbounded integers.
  - The method's preconditions are exactly what the C++ loop needs. First, the
    loop must terminate: `s >= e || st > 0`. Second, `ExitValue` must fit in
    `int`. `ExitValue` is the value of `i` at the moment the loop test fails,
    which is the largest value the loop computes.
  - A non-positive step is accepted when `s >= e`, because then the C++ loop
    never runs and returns an empty vector.

## Model

| member | source | states |
|---|---|---|
| `Slicing.Slice` | examples/slices_ranges.cpp:5-11 | `slice` succeeds exactly when `start < end <= size` and otherwise fails with "Invalid slice indices". On success the copy has `end - start` elements, at least one, and element `k` is `vec[start + k]`. |
| `Slicing.EmptySliceRejected` | examples/slices_ranges.cpp:7-8 | An empty window `slice(v, i, i)` is always refused, including `i == size` and the empty vector. |
| `Slicing.SliceReassembles` | examples/slices_ranges.cpp:10 | A successful slice is the contiguous piece between `vec[..start]` and `vec[end..]`: the three together give back `vec`. |
| `Slicing.SliceOfSlice` | examples/slices_ranges.cpp:5-11 | Slicing a slice succeeds exactly when the inner indices form a non-empty window of it. In that case it equals one slice of the original with the indices shifted by the outer start. |
| `Slicing.SliceExample` | examples/slices_ranges.cpp:23-25 | `slice({10,20,30,40,50}, 1, 4)` is `{20,30,40}`, which is indices 1 to 3. |
| `Ranges.RangeOf` | examples/slices_ranges.cpp:14-18 | The values pushed form an empty sequence exactly when `s >= e`, and every value lies in `[s, e)`. |
| `Ranges.ExitValue` | examples/slices_ranges.cpp:16 | The value of `i` when the loop exits is at least `s` and at least `e`. It equals `s` when the loop never runs, and otherwise it is below `e + st`. |
| `Ranges.Range` | examples/slices_ranges.cpp:14-18 | Under the loop's termination condition, and with the exit value fitting in `int`, the loop never overflows and the vector it builds holds exactly `RangeOf(s, e, st)`. |
| `Ranges.RangeOfAt` | examples/slices_ranges.cpp:16 | With `st > 0`, the k-th value pushed is `s + k*st`, so the first value is `s`. |
| `Ranges.RangeOfLength` | examples/slices_ranges.cpp:16 | With `st > 0`, the number of values is 0 when `s >= e` and `(e - s + st - 1) / st` otherwise. |
| `Ranges.RangeOfMember` | examples/slices_ranges.cpp:16 | With `st > 0`, `x` is pushed if and only if `s <= x < e` and `x - s` is a multiple of `st`. |
| `Ranges.RangeOfSteps` | examples/slices_ranges.cpp:16 | With `st > 0`, consecutive values differ by exactly `st`. |
| `Ranges.RangeOfIncreasing` | examples/slices_ranges.cpp:16 | Whenever the loop terminates, the values pushed are strictly increasing. |
| `Ranges.ExitValueClosedForm` | examples/slices_ranges.cpp:16 | With `st > 0`, the loop exits at `s + n*st`, where `n` is the number of values pushed. |
| `Ranges.NoOverflowWhenEndPlusStepFits` | examples/slices_ranges.cpp:16 | If `st > 0` and `e + st - 1` fits in `int`, the `range` call meets both preconditions, so it cannot overflow. |
| `Ranges.RangeExample` | examples/slices_ranges.cpp:37 | `range(0, 10, 2)` meets the preconditions and yields `{0, 2, 4, 6, 8}`. |
| `Ranges.RangeExampleRun` | examples/slices_ranges.cpp:37 | Running the loop as `range(0, 10, 2)` builds the vector `{0, 2, 4, 6, 8}`. |

## Left out

- `main` in every file, and all printing to `std::cout` and `std::cerr`: this is console I/O.
- The other files hold keyword-alias macros (`let`, `const_`, `func`, `ret`, `for_in`, `safe`), printing test macros (`test`, `assert`), one-line example functions (`add`, `isEven`, `multiply`), a stream-formatting helper (`format`) and thread and timing demos (`std::async`, `std::thread`, `sleep_for`). These are library wrappers, I/O or plain arithmetic, with nothing beyond the operators to model.
- `Slicing.Slice`: covers only element types `T` that the vector's `const_iterator` does not implicitly convert to. The copy `{vec.begin() + start, vec.begin() + end}` is braced initialisation, and C++ prefers the `std::initializer_list<T>` constructor when it is viable. For a type such as `std::any` the result is then a two-element vector holding the two iterators, not the window; the model does not capture that case.
- `Slicing.Slice`: the C++ indices are `size_t`. A negative `int` argument converts implicitly to a huge unsigned value, which the check then rejects. The model takes `nat` indices and does not model that conversion.
- `Ranges.Range`: a call with `s < e` and `st <= 0` never terminates, or overflows. That input is excluded by the `Terminates` precondition and not modelled.
- `Ranges.Range`: a call whose loop would overflow `int` has undefined behaviour in C++. It is excluded by the `ExitValue` precondition and not modelled.
- The compiler front end described in the repository's documentation (lexer, parser, resolver, lowering) has no code in the repository, so it is not part of this model.

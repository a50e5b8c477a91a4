# Sequence helpers and the enumerator/observer demo, in Dafny

This project models two small pieces of the `reactive` C++ tutorial repository
and proves properties of them.

- **`FuncCompose`** (`func_compose.dfy`) covers the generic helpers of
  `src/ch05/func_compose.h`. `Map` copies its container and transforms every
  element in place. `Filter` allocates a result as long as its input. It packs
  the matching elements at the front in their original order and leaves the
  value-initialised element in the rest. If nothing matched it clears the
  result. Containers are `seq<T>`. `Map`'s function is `T -> T`, because
  `std::transform` writes back into the same container. `Filter`'s
  value-initialised element is the explicit parameter `blank`. Each helper has
  two forms. A function gives the meaning. A method follows the C++ loop
  and is proved equal to that function.
- **`Enumeration`** (`enumeration.dfy`) covers the pull side of
  `src/ch01/main.cpp`. `ConcreteEnumerable` keeps its own copy of the numbers
  and hands out fresh `Enumerator`s. An `Enumerator` is a cursor with
  `HasMore` and `Next`. The C++ enumerator is a mutable object. Here it is an
  immutable value, and `Next` returns the handed-out number together with the
  advanced enumerator. The `assert` in `Next` becomes its precondition. This
  is the debug build: with `NDEBUG` the assertion disappears and reading past
  the end is undefined behaviour, which the model does not describe.
- **`Observation`** (`observation.dfy`) covers
  `EvenNumberObservable::Subscribe`. The observer only prints, so the model
  records each call made on it as an `Event`: `OnNext(v)`, `OnError` or
  `OnCompleted`. `Subscribe` returns the whole trace together with its
  boolean result.
- **`CppInt`** (`cpp_int.dfy`) holds the C++ integer vocabulary. It defines
  the 32-bit `int` as the newtype `int32`. It also defines C++ `%`, which
  truncates toward zero, as `Rem`. The evenness test `number % 2 == 0` is
  written with `Rem`.

## Model

| member | source | states |
|---|---|---|
| `FuncCompose.Map` | src/ch05/func_compose.h:38-42 | the result has the input's length and holds `f(r[i])` at every position `i`, so order is kept |
| `FuncCompose.Transform` | src/ch05/func_compose.h:40-41 | transforming the copy in place, left to right, produces exactly `Map` of the input |
| `FuncCompose.MapAppend` | src/ch05/func_compose.h:40 | mapping a concatenation is the concatenation of the mapped parts: no element moves |
| `FuncCompose.MatchIndices` | src/ch05/func_compose.h:52-57 | the matching positions, strictly increasing, each in range and matching, and every matching position present |
| `FuncCompose.Select` | src/ch05/func_compose.h:52-57 | the copied elements all match, are no more than the input, and are empty exactly when no element matches |
| `FuncCompose.SelectFollowsIndices` | src/ch05/func_compose.h:52-57 | the `j`-th copied element is the input element at the `j`-th matching position, so the copy never reorders or duplicates |
| `FuncCompose.Filter` | src/ch05/func_compose.h:44-66 | with no match (including an empty input) the result is empty; otherwise it has the input's length, the matches in order at the front and the blank element in every later position |
| `FuncCompose.FilterLoop` | src/ch05/func_compose.h:45-65 | the C++ allocate, copy-to-front and clear-if-nothing-inserted loop computes exactly `Filter` |
| `CppInt.Rem` | src/ch01/main.cpp:45 | C++ `%` by a positive divisor: the result has the dividend's sign, is smaller than the divisor, and differs from the Euclidean remainder by one divisor exactly when negative |
| `CppInt.IsEven` | src/ch01/main.cpp:45 | the C++ test `n % 2 == 0` holds exactly when the Euclidean remainder is 0, negative numbers included |
| `Enumeration.DefaultEnumerable` | src/ch01/main.cpp:28 | the default-constructed enumerable holds no numbers |
| `Enumeration.Enumerator.Next` | src/ch01/main.cpp:15-18 | needs `HasMore`; hands out `numbers[index]`, advances the index by exactly one, keeps the numbers, and keeps `index <= |numbers|` |
| `Enumeration.Enumerator.HasMore` | src/ch01/main.cpp:11-13 | `index < |numbers|`: a cursor with something left is valid, and a valid cursor with nothing left sits exactly at the end |
| `Enumeration.Enumerator.Remaining` | src/ch01/main.cpp:11-18 | the numbers `Next` has yet to hand out; non-empty exactly when `HasMore` holds |
| `Enumeration.NextConsumesRemaining` | src/ch01/main.cpp:15-18 | `Next` hands out the first remaining number and leaves the others |
| `Enumeration.GetEnumerator` | src/ch01/main.cpp:31-33 | a fresh enumerator over the enumerable's numbers starts at index 0, and `HasMore` holds exactly when there are numbers |
| `Enumeration.AdvanceYieldsSlice` | src/ch01/main.cpp:15-18 | `k` calls of `Next` hand out the next `k` numbers in order and advance the index by exactly `k` |
| `Enumeration.Drain` | src/ch01/main.cpp:79-81 | calling `Next` while `HasMore` holds collects exactly the remaining numbers, in order, and ends exhausted |
| `Enumeration.FreshEnumeratorYieldsAll` | src/ch01/main.cpp:31-33 | walking a fresh enumerator to its end yields the enumerable's numbers in order |
| `Enumeration.DefaultEnumeratorIsExhausted` | src/ch01/main.cpp:28-36 | the enumerator of a default-constructed enumerable has no more elements from the start |
| `Observation.EventFor` | src/ch01/main.cpp:45-49 | an even number is reported by `OnNext` with that number, an odd one by `OnError` |
| `Observation.Notifications` | src/ch01/main.cpp:44-50 | one call per number, in order, each the call `EventFor` prescribes |
| `Observation.Subscribe` | src/ch01/main.cpp:43-54 | the trace has `|numbers| + 1` calls; every number gets its call, an error does not stop later numbers; exactly one `OnCompleted`, last; the result is always true |
| `Observation.SubscribeLoop` | src/ch01/main.cpp:43-54 | the C++ range-for loop over the numbers produces exactly the `Subscribe` trace and result |
| `Observation.SubscribeDeliversEvens` | src/ch01/main.cpp:44-50 | the values delivered through `OnNext` are exactly the even numbers in their original order, and there is one `OnError` per odd number |

## Left out

- `Compose` (src/ch05/func_compose.h:18-26): the two-argument lambda has no `return`, so its result is discarded. The variadic overload's meaning depends on template partial ordering and generic lambdas, which the model does not cover.
- `SimpleObserver` and both `main` functions: they are console output and demo drivers. The observer's calls are recorded as `Event`s instead, and the driver's loop is `Enumeration.Drain`.
- Callbacks are treated as pure functions that return normally: `Map`'s function, `Filter`'s predicate and the observer's `OnNext`, `OnError` and `OnCompleted` (src/common2.h:34-36). None of them is `noexcept`, and `Subscribe` has no `try`. A throwing callback ends `Map`, `Filter` or `Subscribe` early; in `Subscribe`, `OnCompleted` is then never called and nothing is returned. The only observer in the repository, `SimpleObserver`, only prints.
- `FuncCompose.Transform`: applies the function left to right. `std::transform` promises no order, which matters only for a function with side effects.
- `src/common2.h`: it holds only abstract interfaces and an exception type with no logic.
- The expression-tree evaluator of chapter 5 (`src/ch05/book_expr_ eval.h` and `.cpp`): it is not part of this model.
- Ownership: the raw `new` of enumerators and enumerables, and the reference members. These are memory management, not behaviour. `Map` and `Filter` take their container by value, and a Dafny `seq` is a value, so the caller's sequence cannot change.
- Mutation through the shared reference: the C++ `Enumerator` and `EvenNumberObservable` hold references to a vector that someone else could change while they iterate. No code in the repository does this, and the model treats the numbers as fixed.
- `size_t` width of the enumerator index: the index is a `nat`. It never exceeds the vector's size, so wrap-around cannot occur.
- C++ container genericity: `Map` and `Filter` work on `seq<T>`. The container's default element is passed explicitly.

# boost.di metaprogramming core in Dafny

This project models two pure components of the boost.di dependency-injection
library. Both are C++ template metaprograms. Here each one is an ordinary
function over lists, integers or expression trees, with C++ types represented
as values.

- `types.dfy` (module `Types`): C++ types and class templates as opaque
  tokens that support only equality (`Ty`, `TemplateName`).
- `mpl.dfy` (module `Mpl`): the type-list and integer-sequence toolkit of
  `aux_/mpl.hpp`:
  - index sequences: `concat` and `gen_seq`;
  - candidate selection: `size`, `longest`, `greatest` and `max`;
  - folds and list operations: `sum`, `join` and `contains`;
  - constructibility lists: `is_constructible`, `gen_type` and `genn`.
- `policies.dfy` (module `Policies`): the `constructible` policy language of
  `policies/constructible.hpp`, as an expression datatype `Expr` with a
  recursive interpreter `Apply`. It covers literal types, class templates
  with `_` placeholders, `not_`, `and_`, `or_`, `always`, `is_bound`,
  `is_root`, the operators `||`, `&&` and `!`, `constructible_impl` and
  `constructible`.

The toolkit follows the code as written, including three quirks:

- `size` converts the element count to `bool`. `longest` compares these flags
  (promoted to `int`), so it yields the latest non-empty candidate, not the
  longest one.
- `longest` stops before it inspects the last candidate.
- `gen_seq<N>` is `1, 2, ..., N`: it counts from 1, not 0.

Each operation in the table below has an independent reference definition or
partner, and a lemma for all inputs ties the two together:

| operation | partner |
|---|---|
| `LongestImpl` | `LastNonEmpty` |
| `GreatestImpl` | `FirstMaxIndex` |
| `MaxImpl` | `LastMaxIndex` |
| `Sum` | `Power` times `Product` |
| `Join` | `Flatten` |
| `Contains` | sequence membership |
| `Apply` | the compositional semantics `Meaning` |

`Apply` mirrors `apply_impl`, and `TypeOpApply` mirrors the `apply` of each
`type_op`. `and_` and `or_` are computed the way the code computes them: the
children's values are compared with a sequence of the same number of `true`s
(or `false`s).

`always<T>` applies any policy expression `T`, not only a literal type
(constructible.hpp:95-101). `constructible` wraps its argument in it.

## Model

| member | source | states |
|---|---|---|
| Mpl.Concat | include/boost/di/aux_/mpl.hpp:41-46 | the result has length `\|s1\|+\|s2\|`, has `s1` as its prefix, and holds each element of `s2` shifted by `\|s1\|` |
| Mpl.GenSeq | include/boost/di/aux_/mpl.hpp:48-55 | the halving recursion terminates; `gen_seq<N>` has length N and its i-th element is i+1, so it counts from 1 |
| Mpl.Genn | include/boost/di/aux_/mpl.hpp:66-87 | `genn<R, T, N>` is N copies of T when R is constructible from them, and the empty list otherwise |
| Mpl.SizeIsNonEmptyFlag | include/boost/di/aux_/mpl.hpp:89-96 | `size` is true exactly for non-empty lists; `size<R> > size<T>` holds iff R is non-empty and T is empty, so a longer list never beats a shorter non-empty one |
| Mpl.LongestImplIsLastNonEmpty | include/boost/di/aux_/mpl.hpp:98-111 | after I steps, `longest_impl` returns the last non-empty list among the accumulator and the first I candidates |
| Mpl.Longest | include/boost/di/aux_/mpl.hpp:98-114 | `longest` of n ≥ 1 candidates is the last non-empty list among the first n−1 candidates, starting from the empty list |
| Mpl.LongestOfOne | include/boost/di/aux_/mpl.hpp:101-114 | a single candidate is never selected: the result is the empty list |
| Mpl.LongestIgnoresLast | include/boost/di/aux_/mpl.hpp:101-114 | the last candidate has no influence on the result |
| Mpl.LongestPicksLatestNonEmpty | include/boost/di/aux_/mpl.hpp:107-114 | with the strict comparison, the latest non-empty inspected candidate wins over earlier ones; an empty result means that candidate is empty |
| Mpl.LongestOfEmpties | include/boost/di/aux_/mpl.hpp:98-114 | when every inspected candidate is empty, the result is the empty list |
| Mpl.GreatestImplChoosesFirstMax | include/boost/di/aux_/mpl.hpp:116-129 | `greatest_impl` inspects every candidate and returns the `first` of the earliest pair with the maximal `second` |
| Mpl.Greatest | include/boost/di/aux_/mpl.hpp:116-139 | `greatest` returns the `first` of the earliest pair whose `second` is maximal over all pairs; a single pair yields its own `first` (see "Greatest:" under Left out) |
| Mpl.GreatestIsFirstMax | include/boost/di/aux_/mpl.hpp:116-139 | any position that is maximal and strictly above all earlier ones determines the result (ties keep the earlier pair) |
| Mpl.MaxImplChoosesLastMax | include/boost/di/aux_/mpl.hpp:141-154 | `max_impl` returns the latest constant with the maximal value among the accumulator and the candidates |
| Mpl.Max | include/boost/di/aux_/mpl.hpp:141-157 | `max` over at least two constants returns the latest input whose value is maximal |
| Mpl.MaxIsUpperBound | include/boost/di/aux_/mpl.hpp:141-157 | the result is one of the inputs, no input has a greater value, and on equal maxima the later input wins |
| Mpl.SumIsScaledProduct | include/boost/di/aux_/mpl.hpp:160-171 | `sum<F, T1..Tn>` is a product: 1 for n = 0 and `F^n * T1 * ... * Tn` in general |
| Mpl.JoinIsFlatten | include/boost/di/aux_/mpl.hpp:183-209 | `join` of no lists is empty, of one list is that list, and in general is the concatenation of all lists in order |
| Mpl.ContainsImpl | include/boost/di/aux_/mpl.hpp:215-223 | `contains_impl` over a non-empty list of flags is true iff some flag is true |
| Mpl.Contains | include/boost/di/aux_/mpl.hpp:225-235 | `contains<L, T>` is true iff T occurs in L, so it is false for the empty list |
| Policies.Substitute | include/boost/di/policies/constructible.hpp:28-41 | each `_` argument becomes the context's argument type and every other argument is kept, position by position |
| Policies.ApplyEach | include/boost/di/policies/constructible.hpp:71-93 | the child pack of `and_`/`or_` yields one value per child, in order, each the value of that child: all children are evaluated |
| Policies.ApplyIsMeaning | include/boost/di/policies/constructible.hpp:18-119 | the interpreter agrees, for every expression and context, with the compositional semantics where `and_` is "all children", `or_` is "some child" and `not_` is negation |
| Policies.LiteralIsConstant | include/boost/di/policies/constructible.hpp:18-24 | a plain type evaluates to its own constant in every context |
| Policies.TemplateSubstitutesPlaceholders | include/boost/di/policies/constructible.hpp:26-48 | a non-`type_op` template is evaluated with every `_` argument replaced by the argument type and the other arguments unchanged |
| Policies.BindKeepsValue | include/boost/di/policies/constructible.hpp:18-119 | the argument type reaches a policy only through its `_` placeholders: once they are bound to it, the value no longer depends on the argument type |
| Policies.NotNegates | include/boost/di/policies/constructible.hpp:61-69 | `not_` evaluates to the negation of its child |
| Policies.AndIsConjunction | include/boost/di/policies/constructible.hpp:71-80 | `and_` is true iff every child is true, and true with no children |
| Policies.OrIsDisjunction | include/boost/di/policies/constructible.hpp:82-93 | `or_` is true iff some child is true, and false with no children |
| Policies.AlwaysIsTransparent | include/boost/di/policies/constructible.hpp:95-101 | `always` returns its child's value unchanged |
| Policies.IsBoundMeansResolved | include/boost/di/policies/constructible.hpp:103-112 | `is_bound<T, Name>` is true iff resolving T (the argument type when T is `_`) under Name does not give the `not_resolved` sentinel |
| Policies.IsRootIsFlag | include/boost/di/policies/constructible.hpp:114-119 | `is_root` is exactly the context's root flag |
| Policies.LogicalOrIsOr | include/boost/di/policies/constructible.hpp:123-126 | `x \|\| y` builds an `or_` of the two operands, true iff either is |
| Policies.LogicalAndIsAnd | include/boost/di/policies/constructible.hpp:128-131 | `x && y` builds an `and_` of the two operands, true iff both are |
| Policies.LogicalNotIsNot | include/boost/di/policies/constructible.hpp:133-136 | `!x` builds a `not_`, true iff x is false |
| Policies.OperatorsDeMorgan | include/boost/di/policies/constructible.hpp:121-138 | the operators satisfy De Morgan's law: `!(x && y)` and `!x \|\| !y` agree in every context |
| Policies.Invoke | include/boost/di/policies/constructible.hpp:140-147 | `constructible_impl` calls the wrapped `type_op`'s own `apply`, which agrees with applying it through `apply_impl` |
| Policies.Constructible | include/boost/di/policies/constructible.hpp:149-152 | `constructible` wraps its argument in `always`, which is a `type_op`, so the result can be invoked |
| Policies.ConstructibleDelegates | include/boost/di/policies/constructible.hpp:140-152 | a `constructible` policy has the value of the expression it wraps; the default one (`always<false_type>`) is false in every context |

## Left out

- Test/UT/Back/Aux/InstanceTest.cpp: it tests an `Instance` wrapper, and `QDeps/Back/Aux/Instance.hpp` is not part of this model. Its assertions rely on C++ object addresses, `boost::variant` and `shared_ptr` identity.
- `std::is_constructible` is the oracle parameter `Constructibility`. `TArg::resolve` is the context field `resolve`. The `::value` of an instantiated class template is the oracle parameter `TemplateValue`. The C++ type system decides all three, so the model takes them as given.
- The binding table, scopes, instance wrapper and injector are not part of this model: none of their logic is in the modelled files.
- Tag and alias types (`no_tag`, `yes_tag`, `void_`, `none_t`, `non_type`, `type`, `int_`, `bool_`, `Invoke`, `type_list`, `is_type_list`, `bool_seq`) are plain Dafny values: `seq` for lists, `int` and `bool` for constants. `no_name` is the `NoName` token.
- Packs that the C++ rejects at compile time (`longest` of no candidates, `greatest` of no pairs, `max` of fewer than two values, `contains_impl` of no flags) are excluded by preconditions rather than modelled as errors.
- Concat: `seq<unsigned...>` elements are unbounded `nat`s, so a shifted index that no longer fits in `unsigned` (a compile-time narrowing error) is not modelled.
- Genn: `N` is a `nat`; a negative `int` N converted to `unsigned` is not modelled.
- Greatest: a single pair yields its `first` here, while the code's `greatest<T>` inherits from `T::first` (mpl.hpp:136-139), so its `::type` is `T::first::type`; the two agree only when `first` names itself as its `type`, as every `type_list` does, and a non-class or final `first` does not compile. The model assumes that agreement. Every `second::value` is also taken to be an `int`, as it is for `int_`; the C++ comparison `T::second::value > R::second::value` (mpl.hpp:122, 128) applies the usual arithmetic conversions, so comparing a signed with an unsigned value (where `-1 > 0u` holds) is not modelled.
- Max: every `::value` is taken to be an `int`, as it is for `int_`; the C++ comparison `R::value > T::value` (mpl.hpp:147, 153) applies the usual arithmetic conversions, so comparing a signed with an unsigned value is not modelled (`max<int_<-1>, std::integral_constant<unsigned, 0>>` is `int_<-1>` in C++, the unsigned 0 here).
- Sum: the product is an unbounded `int`. A signed product that overflows `int` (a compile-time error) is not modelled, and neither is the silent wrap-around of unsigned-valued constants (with `F = T = integral_constant<unsigned, 65536>` the C++ product wraps to 0).
- C++ mechanics (`decltype`, `noexcept`, SFINAE and `enable_if` dispatch, compile-time versus run-time evaluation) are replaced by ordinary pattern matching.
- A `_` nested inside a template argument (`std::vector<_>`) is not replaced by the code. The model keeps such an argument as one opaque type, so it is not replaced there either.

# Separable derive macro, modelled in Dafny

The `separable` crate lets a sequence of enum values be split into one vector
per variant: `let (celsius, fahrenheit, kelvin) = measurements.into_iter().collect();`.
The work is done by the `#[derive(Separable)]` macro in `separable-derive`,
whose function `separable_derive_wrapper` does two things:

1. It validates the annotated declaration. Structs and unions are rejected.
   Every variant must be a tuple variant with exactly one field. The first
   offending variant, in declaration order, gives the diagnostic and its
   source location. On success it yields the payload types in variant order.
2. It emits `FromIterator` impls for `Self`, `&Self` and `&mut Self`, and
   `Separable` impls naming the same tuple types. Each `from_iter` declares
   `collection_0 .. collection_{n-1}` and walks the input once. The arm for
   variant `idx` pushes the payload onto `collection_idx`. The vectors are
   returned as a tuple in variant order.

The model has four modules:

- `Wrappers` holds `Option` and `Result`.
- `Decimal` renders an index in decimal, as `format!("{}", idx)` does, and
  parses it back. It is used to prove that collection names are distinct.
- `Derive` models the declaration (`DeriveInput`, `Data`, `Variant`,
  `Fields`), the validator, the collection names and the expansion.
- `Separation` models the behaviour of the emitted `from_iter`. An enum value
  is an `Item(tag, payload)`, where `tag` is its variant's index. `FromIter`
  is a method that fills an array of buckets in one loop. It is proved
  against the pure specification `Bucket`: the input filtered to one variant,
  then mapped to payloads.

The dispatch in `Separation` goes straight from variant index to bucket
index. `Derive.VariantSelectsArm` and `Derive.ArmRoutesToSlot` justify this:
a value of variant `i` is matched by arm `i`, and that arm pushes into the
vector that sits in slot `i` of the returned tuple.

## Model

| member | source | states |
|---|---|---|
| `Derive.CheckVariant` | separable-derive/src/lib.rs:33-45 | A variant is accepted exactly when it is a tuple variant with one field, and the result is that field's type. A tuple variant with any other field count is rejected with "tupple variants may contain only 1 element" at the field list's span. A named or unit variant is rejected with the "unsupported variant ..." message at the variant identifier's span. |
| `Derive.CollectTypes` | separable-derive/src/lib.rs:32-46 | Collecting succeeds exactly when every variant is a one-field tuple variant. On success there is one type per variant, and entry `i` is variant `i`'s field type. |
| `Derive.FirstRejectedVariantReported` | separable-derive/src/lib.rs:32-46 | If variant `i` is the first rejected one, the reported error is variant `i`'s error. |
| `Derive.DeriveWrapper` | separable-derive/src/lib.rs:20-125 | The macro succeeds exactly for an enum whose variants are all one-field tuple variants. A struct or union is rejected with "derive macro works only with enums" at the span of its `struct` or `union` keyword. An enum with a bad variant reports the variant-collection error. The success value is the expansion that `ExpansionImpls`, `ArmRoutesToSlot` and `VariantSelectsArm` describe. |
| `Derive.CollectionName` | separable-derive/src/lib.rs:53-55 | `collection_{idx}` is a valid identifier, as `Ident::new` requires. |
| `Decimal.Digits` | separable-derive/src/lib.rs:54 | The rendering of an index is a non-empty string of decimal digits with no leading zero unless the index is 0. |
| `Decimal.ValueOfDigits` | separable-derive/src/lib.rs:54 | Parsing the decimal rendering of an index gives back the index. |
| `Decimal.DigitsInjective` | separable-derive/src/lib.rs:54 | Distinct indices render to distinct decimal strings. |
| `Derive.CollectionNameInjective` | separable-derive/src/lib.rs:53-55 | `collection_i` and `collection_j` are the same name exactly when `i == j`. |
| `Derive.CollectionSlot` | separable-derive/src/lib.rs:53-66 | For `idx < n`, the first occurrence of `collection_idx` among the `n` returned names is at position `idx`. |
| `Derive.ExpansionImpls` | separable-derive/src/lib.rs:49-122 | A successful expansion has three `FromIterator` impls: owned, shared and exclusive. All three share one set of match arms. Each declares exactly the vectors it returns, one per variant. Each `Separable` impl's `Target` is the tuple its matching `FromIterator` impl builds. |
| `Derive.ArmRoutesToSlot` | separable-derive/src/lib.rs:49-79 | In each `FromIterator` impl, tuple slot `i` is a vector of variant `i`'s field type, with that impl's borrow. The arm for variant `i` matches that variant and pushes into `collection_i`. That vector is returned in slot `i`. |
| `Derive.VariantSelectsArm` | separable-derive/src/lib.rs:62-66 | When the variant names are pairwise distinct, as Rust requires of an enum, the first arm of each `FromIterator` impl that matches variant `i`'s name is arm `i`. So a value of variant `i` is pushed into `collection_i`. |
| `Separation.FromIter` | separable-derive/src/lib.rs:68-80 | The method returns one vector per variant. Vector `k` holds exactly the payloads of the input items of variant `k`, in input order. |
| `Separation.BucketConcat` | separable-derive/src/lib.rs:73-77 | Separating a concatenation is the same as separating each part and concatenating the results: the loop's work splits over any prefix. |
| `Separation.PlacedAtRank` | separable-derive/src/lib.rs:73-79 | Item `i`'s payload sits in its own variant's vector. Its position there is the number of earlier items of the same variant. |
| `Separation.RankPreservesOrder` | separable-derive/src/lib.rs:73-79 | Two items of the same variant keep their relative input order in the output. |
| `Separation.RankInjective` | separable-derive/src/lib.rs:73-79 | Distinct items of the same variant occupy distinct positions. |
| `Separation.LengthConserved` | separable-derive/src/lib.rs:68-80 | When every item's variant index is below `n`, the lengths of the `n` vectors add up to the input length. Together with `PlacedAtRank` and `RankInjective`, this means every item lands in exactly one vector. |
| `Separation.BorrowedSeparation` | separable-derive/src/lib.rs:84-110 | Separating borrowed items gives, vector for vector, the borrows of what separating the owned items gives. So the `&Self` and `&mut Self` impls route each variant exactly as the `Self` impl does. |
| `Separation.TemperatureExample` | separable/src/lib.rs:10-34 | The documented example holds: `Celsius`, `Fahrenheit`, `Celsius`, `Kelvin`, `Celsius`, `Fahrenheit` separate into `[c1, c2, c3]`, `[f1, f2]` and `[k1]`. |

## Left out

- Parsing the token stream into a `DeriveInput` (`parse_macro_input!`) is left out. So is turning an error into a compile error (`separable_derive`, lines 13-18). The model starts from the parsed declaration and stops at the error value.
- Token emission through `quote!` is left out. The expansion is a record: the tuple types, the declared vectors, the match arms and the returned vectors.
- Lifetimes, the borrow checker and the host compiler's type checking of the emitted code are left out. A borrow is modelled as a function applied to each payload.
- Payload types are modelled as one generic type `P` for all variants, while Rust gives each variant its own field type. The link from slot `i` to variant `i`'s field type is stated on the expansion (`ArmRoutesToSlot`), not on `FromIter`.
- Source spans are opaque values. An error is a message and a span. The `syn::Error` conversion in separable-derive/src/error.rs is not part of this model.
- separable/src/lib.rs holds only the marker trait `Separable`. It has no behaviour to model; its documentation example is `TemperatureExample`.
- Zero-variant enums are not rejected by the validator, and the model accepts them, as the source does. For such an enum the model's `FromIter` returns an empty sequence. The macro's templates `(#(#vecced_types),*, )` and `(#(#collections),*, )` (lines 69 and 79) would then emit `( , )`, which does not parse, where `()` was needed.
- Duplicate variant names are not rejected by the model, because Rust rejects such an enum before the macro runs. `VariantSelectsArm` states that assumption as its `DistinctIdents` requirement.
- `from_iter` accepts any `I: IntoIterator` (line 70), which may be lazy or unbounded. The model takes a finite sequence of items.
- Generic parameters of the enum are not modelled. The source never reads `input.generics`, so a generic enum gets impls that do not compile. `DeriveInput` has no generics either.
- `f64` payloads are not modelled: payloads are generic.

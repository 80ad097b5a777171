/**
 * The `Separable` derive macro (`separable_derive_wrapper`): it checks the
 * shape of the annotated declaration and, for an enum whose variants each
 * wrap exactly one value, describes the impls it emits. Token streams and
 * the `syn` syntax tree are abstracted into the datatypes below; a source
 * position (`Span`) is an opaque value.
 */
module Derive {
  import opened Wrappers
  import Decimal

  // ---------------------------------------------------------------------
  // The declaration the macro receives
  // ---------------------------------------------------------------------

  /** A source location that a diagnostic points at. */
  datatype Span = Span(offset: nat)

  datatype Field<Ty> = Field(ident: string, ty: Ty)

  /** The fields of one variant: `V(A, B)`, `V { a: A }` or plain `V`. */
  datatype Fields<Ty> =
    | Unnamed(types: seq<Ty>, span: Span)
    | Named(fields: seq<Field<Ty>>)
    | Unit

  datatype Variant<Ty> = Variant(ident: string, identSpan: Span, fields: Fields<Ty>)

  /** The body of the declaration; struct and union keep the span of their keyword. */
  datatype Data<Ty> =
    | Struct(structToken: Span)
    | Union(unionToken: Span)
    | Enum(variants: seq<Variant<Ty>>)

  datatype DeriveInput<Ty> = DeriveInput(ident: string, data: Data<Ty>)

  /** A diagnostic: a message and the location it is reported at. */
  datatype Error = Error(message: string, span: Span)

  const NotAnEnum := "derive macro works only with enums"
  const TupleArity := "tupple variants may contain only 1 element"
  const UnsupportedVariant := "unsupported variant, this macro only works with unnamed single-value tuple variants"

  // ---------------------------------------------------------------------
  // Variant-shape validation
  // ---------------------------------------------------------------------

  /** A variant the macro accepts: a tuple variant with exactly one field. */
  predicate SingleValue<Ty>(v: Variant<Ty>) {
    v.fields.Unnamed? && |v.fields.types| == 1
  }

  /** Checks one variant and yields the type of its single field. */
  function CheckVariant<Ty>(v: Variant<Ty>): (r: Result<Ty, Error>)
    ensures r.Ok? <==> SingleValue(v)
    ensures r.Ok? ==> r.value == v.fields.types[0]
    ensures r.Err? && v.fields.Unnamed? ==> r.error == Error(TupleArity, v.fields.span)
    ensures r.Err? && !v.fields.Unnamed? ==> r.error == Error(UnsupportedVariant, v.identSpan)
  {
    match v.fields
    case Unnamed(types, span) =>
      if |types| != 1 then Err(Error(TupleArity, span)) else Ok(types[0])
    case _ => Err(Error(UnsupportedVariant, v.identSpan))
  }

  /**
   * Checks every variant in declaration order and collects the payload
   * types, stopping at the first variant that is rejected.
   */
  function CollectTypes<Ty>(vs: seq<Variant<Ty>>): (r: Result<seq<Ty>, Error>)
    ensures r.Ok? <==> forall i :: 0 <= i < |vs| ==> SingleValue(vs[i])
    ensures r.Ok? ==> |r.value| == |vs|
    ensures r.Ok? ==> forall i :: 0 <= i < |vs| ==> r.value[i] == vs[i].fields.types[0]
  {
    if vs == [] then Ok([])
    else
      match CheckVariant(vs[0])
      case Err(e) => Err(e)
      case Ok(ty) =>
        match CollectTypes(vs[1..])
        case Err(e) => Err(e)
        case Ok(tys) => Ok([ty] + tys)
  }

  /** The error reported is the one of the first rejected variant. */
  lemma {:induction false} FirstRejectedVariantReported<Ty>(vs: seq<Variant<Ty>>, i: nat)
    requires i < |vs| && !SingleValue(vs[i])
    requires forall j :: 0 <= j < i ==> SingleValue(vs[j])
    ensures CollectTypes(vs) == Err(CheckVariant(vs[i]).error)
  {
    if i > 0 {
      FirstRejectedVariantReported(vs[1..], i - 1);
    }
  }

  // ---------------------------------------------------------------------
  // Collection names
  // ---------------------------------------------------------------------

  const CollectionPrefix := "collection_"

  /** The identifier `collection_{idx}` of the vector that variant `idx` fills. */
  function CollectionName(idx: nat): (name: string)
    ensures IsIdentifier(name)
  {
    CollectionPrefix + Decimal.Digits(idx)
  }

  /** What `Ident::new` accepts: a letter or `_`, then letters, digits or `_`. */
  predicate IsIdentifier(s: string) {
    && |s| > 0
    && ('a' <= s[0] <= 'z' || 'A' <= s[0] <= 'Z' || s[0] == '_')
    && forall i :: 0 <= i < |s| ==> IdentChar(s[i])
  }

  predicate IdentChar(c: char) {
    'a' <= c <= 'z' || 'A' <= c <= 'Z' || Decimal.IsDigit(c) || c == '_'
  }

  /** Distinct variants get distinct collection names. */
  lemma CollectionNameInjective(i: nat, j: nat)
    ensures CollectionName(i) == CollectionName(j) <==> i == j
  {
    if CollectionName(i) == CollectionName(j) {
      var n := |CollectionPrefix|;
      assert CollectionName(i)[n..] == Decimal.Digits(i);
      assert CollectionName(j)[n..] == Decimal.Digits(j);
      Decimal.DigitsInjective(i, j);
    }
  }

  /** The names `collection_0` .. `collection_{n-1}`, one per variant. */
  function Collections(n: nat): seq<string> {
    seq(n, i requires 0 <= i => CollectionName(i))
  }

  /** The first position of `name` in `names`, as identifier lookup finds it. */
  function IndexOf(names: seq<string>, name: string): (r: Option<nat>)
    ensures r.None? <==> name !in names
    ensures r.Some? ==> r.value < |names| && names[r.value] == name
    ensures r.Some? ==> forall j :: 0 <= j < r.value ==> names[j] != name
  {
    if names == [] then None
    else if names[0] == name then Some(0)
    else
      match IndexOf(names[1..], name)
      case None => None
      case Some(k) => Some(k + 1)
  }

  /** The collection variant `idx` pushes into is slot `idx` of the returned tuple. */
  lemma CollectionSlot(n: nat, idx: nat)
    requires idx < n
    ensures IndexOf(Collections(n), CollectionName(idx)) == Some(idx)
  {
    var names := Collections(n);
    assert names[idx] == CollectionName(idx);
    var r := IndexOf(names, CollectionName(idx));
    CollectionNameInjective(r.value, idx);
  }

  // ---------------------------------------------------------------------
  // The expansion
  // ---------------------------------------------------------------------

  /** How the iterated items are held: `Self`, `&'a Self` or `&'a mut Self`. */
  datatype Access = Owned | Shared | Exclusive

  /** `Vec<T>`, `Vec<&'a T>` or `Vec<&'a mut T>`. */
  datatype VecTy<Ty> = VecOf(access: Access, elem: Ty)

  /** The match arm `Name::Variant(v) => collection.push(v)`. */
  datatype Arm = Arm(enumName: string, variant: string, collection: string)

  /**
   * One `impl FromIterator<..> for (Vec<..>, ..)`: the tuple it builds, the
   * vectors it declares, the match arms of its loop, and the vectors it
   * returns in tuple order.
   */
  datatype FromIterImpl<Ty> = FromIterImpl(
    access: Access,
    target: seq<VecTy<Ty>>,
    declared: seq<string>,
    arms: seq<Arm>,
    returned: seq<string>)

  /** One `impl Separable for ..` with its `Target` tuple type. */
  datatype SeparableImpl<Ty> = SeparableImpl(access: Access, target: seq<VecTy<Ty>>)

  datatype Expansion<Ty> = Expansion(
    enumName: string,
    fromIter: seq<FromIterImpl<Ty>>,
    separable: seq<SeparableImpl<Ty>>)

  function Target<Ty>(access: Access, types: seq<Ty>): seq<VecTy<Ty>> {
    seq(|types|, i requires 0 <= i < |types| => VecOf(access, types[i]))
  }

  function Arms<Ty>(name: string, vs: seq<Variant<Ty>>): seq<Arm> {
    seq(|vs|, i requires 0 <= i < |vs| => Arm(name, vs[i].ident, CollectionName(i)))
  }

  function FromIterFor<Ty>(access: Access, name: string, vs: seq<Variant<Ty>>, types: seq<Ty>): FromIterImpl<Ty> {
    FromIterImpl(access, Target(access, types), Collections(|vs|), Arms(name, vs), Collections(|vs|))
  }

  function Expand<Ty>(name: string, vs: seq<Variant<Ty>>, types: seq<Ty>): Expansion<Ty> {
    var accesses := [Owned, Shared, Exclusive];
    Expansion(
      name,
      seq(3, j requires 0 <= j < 3 => FromIterFor(accesses[j], name, vs, types)),
      seq(3, j requires 0 <= j < 3 => SeparableImpl(accesses[j], Target(accesses[j], types))))
  }

  /**
   * The whole macro: reject anything but an enum, validate the variants,
   * then describe the emitted impls.
   */
  function DeriveWrapper<Ty>(input: DeriveInput<Ty>): (r: Result<Expansion<Ty>, Error>)
    ensures r.Ok? <==> input.data.Enum? && forall i :: 0 <= i < |input.data.variants| ==> SingleValue(input.data.variants[i])
    ensures input.data.Struct? ==> r == Err(Error(NotAnEnum, input.data.structToken))
    ensures input.data.Union? ==> r == Err(Error(NotAnEnum, input.data.unionToken))
    ensures input.data.Enum? && r.Err? ==> CollectTypes(input.data.variants) == Err(r.error)
  {
    match input.data
    case Struct(token) => Err(Error(NotAnEnum, token))
    case Union(token) => Err(Error(NotAnEnum, token))
    case Enum(vs) =>
      match CollectTypes(vs)
      case Err(e) => Err(e)
      case Ok(types) => Ok(Expand(input.ident, vs, types))
  }

  /**
   * The impls of a successful expansion: three `FromIterator` impls (for
   * `Self`, `&Self`, `&mut Self`) that share one set of match arms and each
   * declare exactly the vectors they return, and three `Separable` impls
   * whose `Target` is the tuple the matching `FromIterator` impl builds.
   */
  lemma ExpansionImpls<Ty>(input: DeriveInput<Ty>)
    requires DeriveWrapper(input).Ok?
    ensures var e := DeriveWrapper(input).value;
      && e.enumName == input.ident
      && |e.fromIter| == 3 && |e.separable| == 3
      && e.fromIter[0].access == Owned && e.fromIter[1].access == Shared && e.fromIter[2].access == Exclusive
      && forall j :: 0 <= j < 3 ==>
        && e.separable[j] == SeparableImpl(e.fromIter[j].access, e.fromIter[j].target)
        && e.fromIter[j].arms == e.fromIter[0].arms
        && e.fromIter[j].declared == e.fromIter[j].returned
        && |e.fromIter[j].target| == |e.fromIter[j].arms| == |e.fromIter[j].returned| == |input.data.variants|
  {
  }

  /**
   * In every `FromIterator` impl, tuple slot `i` is a vector of variant
   * `i`'s field type, and the arm for variant `i` matches that variant and
   * pushes into the vector returned in slot `i`.
   */
  lemma ArmRoutesToSlot<Ty>(input: DeriveInput<Ty>, j: nat, i: nat)
    requires DeriveWrapper(input).Ok?
    requires j < 3 && i < |input.data.variants|
    ensures var impl := DeriveWrapper(input).value.fromIter[j];
      && impl.target[i] == VecOf(impl.access, input.data.variants[i].fields.types[0])
      && impl.arms[i] == Arm(input.ident, input.data.variants[i].ident, CollectionName(i))
      && IndexOf(impl.returned, impl.arms[i].collection) == Some(i)
  {
    CollectionSlot(|input.data.variants|, i);
  }

  /** Rust rejects an enum that declares two variants with the same name. */
  predicate DistinctIdents<Ty>(vs: seq<Variant<Ty>>) {
    forall a, b :: 0 <= a < b < |vs| ==> vs[a].ident != vs[b].ident
  }

  /** The variant names the arms match on, in arm order. */
  function ArmVariants(arms: seq<Arm>): seq<string> {
    seq(|arms|, k requires 0 <= k < |arms| => arms[k].variant)
  }

  /**
   * A value of variant `i` is matched by arm `i`: among the arms of every
   * `FromIterator` impl, the first one naming variant `i` is arm `i`.
   */
  lemma VariantSelectsArm<Ty>(input: DeriveInput<Ty>, j: nat, i: nat)
    requires DeriveWrapper(input).Ok?
    requires DistinctIdents(input.data.variants)
    requires j < 3 && i < |input.data.variants|
    ensures IndexOf(ArmVariants(DeriveWrapper(input).value.fromIter[j].arms), input.data.variants[i].ident) == Some(i)
  {
    var vs := input.data.variants;
    var names := ArmVariants(DeriveWrapper(input).value.fromIter[j].arms);
    assert names[i] == vs[i].ident;
  }
}

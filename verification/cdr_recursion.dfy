/** How far the decoder descends through nested types before it reads a
    byte. `decode_primitive` resolves a nested type name and decodes its
    schema straight away; when that schema's first field is again a nested
    message (or a non-empty array of them), the decoder descends once more
    without consuming anything. A type whose first field is of its own type
    therefore recurses without end, and no rank can order it. Ranked
    resolvers exclude every self-containing type, which is why `Cdr.Decode`
    is stated for them only. */
module CdrRecursion {
  import opened Errors
  import opened Schema
  import opened Cdr

  /** The type decoding a `tn` message descends into before reading any
      byte, if there is one. */
  function FirstNested(resolve: Resolver, tn: string): (next: Option<string>)
    ensures next.Some? ==>
      (resolve(tn).Ok? && |resolve(tn).value.fields| > 0 &&
       next.value == resolve(tn).value.fields[0].fieldType.typeName)
  {
    match resolve(tn)
    case Err(_) => None
    case Ok(schema) =>
      if |schema.fields| > 0 then
        var ft := schema.fields[0].fieldType;
        if (ft.Object? || (ft.Array? && ft.length > 0)) && Classify(ft.typeName).Nested? then Some(ft.typeName)
        else None
      else None
  }

  /** Within `fuel` schema lookups the chain of first-field nested types
      from `tn` ends: at a first field the decoder does not descend into
      straight away (a built-in value, a sequence, an empty array), at an
      empty message, or at a resolver error. The end of the chain is not
      always a byte read: an empty first field hands over to the next field,
      which may descend again. Only a chain that never ends is sure to
      descend forever without reading. */
  function Settles(resolve: Resolver, tn: string, fuel: nat): bool
    decreases fuel
  {
    fuel > 0 &&
      match FirstNested(resolve, tn)
      case None => true
      case Some(next) => Settles(resolve, next, fuel - 1)
  }

  /** More lookups never hurt. */
  lemma {:induction false} SettlesMonotone(resolve: Resolver, tn: string, fuel: nat, more: nat)
    requires Settles(resolve, tn, fuel) && fuel <= more
    ensures Settles(resolve, tn, more)
    decreases fuel
  {
    if FirstNested(resolve, tn).Some? {
      SettlesMonotone(resolve, FirstNested(resolve, tn).value, fuel - 1, more - 1);
    }
  }

  /** For a ranked resolver the chain of first-field nested types from `tn`
      ends within `rank(tn) + 1` lookups. */
  lemma {:induction false} RankedSettles(resolve: Resolver, rank: string -> nat, tn: string)
    requires Ranked(resolve, rank)
    ensures Settles(resolve, tn, rank(tn) + 1)
    decreases rank(tn)
  {
    match FirstNested(resolve, tn)
    case None =>
    case Some(next) =>
      assert SchemaBelow(resolve(tn).value, rank, rank(tn));
      assert rank(next) < rank(tn);
      RankedSettles(resolve, rank, next);
      SettlesMonotone(resolve, next, rank(next) + 1, rank(tn));
  }

  /** A type whose first field is of its own type never settles: the
      decoder, as written, recurses until the stack runs out. */
  lemma {:induction false} SelfReferenceNeverSettles(resolve: Resolver, tn: string, fuel: nat)
    requires FirstNested(resolve, tn) == Some(tn)
    ensures !Settles(resolve, tn, fuel)
    decreases fuel
  {
    if fuel > 0 {
      SelfReferenceNeverSettles(resolve, tn, fuel - 1);
    }
  }

  /** Hence no rank orders such a resolver. */
  lemma {:induction false} SelfReferenceUnranked(resolve: Resolver, rank: string -> nat, tn: string)
    requires FirstNested(resolve, tn) == Some(tn)
    ensures !Ranked(resolve, rank)
  {
    SelfReferenceNeverSettles(resolve, tn, rank(tn) + 1);
    IfRankedSettles(resolve, rank, tn);
  }

  lemma {:induction false} IfRankedSettles(resolve: Resolver, rank: string -> nat, tn: string)
    ensures Ranked(resolve, rank) ==> Settles(resolve, tn, rank(tn) + 1)
  {
    if Ranked(resolve, rank) {
      RankedSettles(resolve, rank, tn);
    }
  }
}

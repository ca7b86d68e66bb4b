/**
 The schema's type registry, as far as validation rules consult it: a mapping
 from declared type names to type definitions, read-only during validation.
 */
module Registry {
  import opened Wrappers
  import opened Ast

  datatype MetaTypeKind = Scalar | Object | Interface | Union | Enum | InputObject

  /** A declared type of the schema; `name` is what `MetaType::name()` returns. */
  datatype MetaType = MetaType(kind: MetaTypeKind, name: string)

  datatype Registry = Registry(types: map<string, MetaType>)

  /** The innermost named type of a type reference, with every list and
      non-null wrapper stripped. */
  function BaseTypeName(t: Type): string
  {
    match t
    case NamedType(n) => n
    case ListType(inner) => BaseTypeName(inner)
    case NonNullType(inner) => BaseTypeName(inner)
  }

  /** Resolves a syntactic type reference to the definition of its underlying
      named type, or `None` when that name is not declared in the registry. */
  function BasicTypeByParsedType(reg: Registry, t: Type): (r: Option<MetaType>)
    ensures r.Some? <==> BaseTypeName(t) in reg.types
    ensures r.Some? ==> r.value == reg.types[BaseTypeName(t)]
  {
    match t
    case NamedType(n) => if n in reg.types then Some(reg.types[n]) else None
    case ListType(inner) => BasicTypeByParsedType(reg, inner)
    case NonNullType(inner) => BasicTypeByParsedType(reg, inner)
  }

  /** Every definition is stored under its own name, as the schema builder
      registers types. */
  ghost predicate WellFormed(reg: Registry)
  {
    forall n :: n in reg.types ==> reg.types[n].name == n
  }
}

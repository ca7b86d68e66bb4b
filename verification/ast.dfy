/**
 The part of a parsed GraphQL query document that validation rules see when an
 operation definition is entered: the operation's kind, its variable definitions,
 and each variable's declared type and source position.
 */
module Ast {
  import opened Wrappers

  /** A source position (line and column) inside the query text. */
  datatype Pos = Pos(line: nat, column: nat)

  /** A syntactic type reference as written in a variable definition,
      e.g. `Upload`, `[Upload]` or `[Upload!]!`. */
  datatype Type =
    | NamedType(name: string)
    | ListType(inner: Type)
    | NonNullType(inner: Type)

  /** `$name: Type` inside an operation's variable list. The default value is
      not read by any rule modelled here and is left out. */
  datatype VariableDefinition = VariableDefinition(position: Pos, name: string, varType: Type)

  /** One operation of a query document. The shorthand form `{ ... }` is an
      anonymous selection set that cannot declare variables. */
  datatype OperationDefinition =
    | SelectionSet
    | Query(name: Option<string>, variableDefinitions: seq<VariableDefinition>)
    | Mutation(name: Option<string>, variableDefinitions: seq<VariableDefinition>)
    | Subscription(name: Option<string>, variableDefinitions: seq<VariableDefinition>)
}

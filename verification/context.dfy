/**
 The validator context shared by all rules during one validation pass, reduced
 to what rules write: the registry handle and the append-only error sequence.
 */
module Context {
  import opened Ast
  import opened Registry

  /** A rule violation: a message and the source positions it refers to. */
  datatype RuleError = RuleError(positions: seq<Pos>, message: string)

  datatype ValidatorContext = ValidatorContext(registry: Registry, errors: seq<RuleError>)

  /** Records one rule violation; reporting never fails and never removes
      or reorders earlier errors. */
  function ReportError(ctx: ValidatorContext, positions: seq<Pos>, message: string): (r: ValidatorContext)
    ensures r.registry == ctx.registry
    ensures |r.errors| == |ctx.errors| + 1
    ensures r.errors[..|ctx.errors|] == ctx.errors
    ensures r.errors[|ctx.errors|] == RuleError(positions, message)
  {
    ctx.(errors := ctx.errors + [RuleError(positions, message)])
  }
}

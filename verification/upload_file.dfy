/**
 The "Upload type only on mutations" validation rule. When an operation
 definition is entered, a query operation gets one error for every variable
 whose declared type resolves to the schema type named `Upload`; mutations,
 subscriptions and shorthand selection sets are left alone. The rule holds no
 state of its own, so its hook is a function of the context and the operation.
 */
module UploadFileRule {
  import opened Wrappers
  import opened Ast
  import opened Registry
  import opened Context

  const UploadTypeName: string := "Upload"
  const UploadMessage: string := "The Upload type is only allowed to be defined on a mutation"

  /** The variable's type resolves to a declared type whose name is exactly `Upload`. */
  predicate IsUploadVariable(reg: Registry, v: VariableDefinition)
  {
    match BasicTypeByParsedType(reg, v.varType)
    case Some(ty) => ty.name == UploadTypeName
    case None => false
  }

  /** The error reported against an offending variable. */
  function UploadError(v: VariableDefinition): RuleError
  {
    RuleError([v.position], UploadMessage)
  }

  // ---------------------------------------------------------------------------
  // Reference definition: which variables are offending, in declaration order.
  // ---------------------------------------------------------------------------

  /** The indices of the Upload-typed variables, in increasing order. */
  function UploadIndices(reg: Registry, vars: seq<VariableDefinition>): (r: seq<nat>)
    ensures forall k :: 0 <= k < |r| ==> r[k] < |vars|
    ensures forall k, l :: 0 <= k < l < |r| ==> r[k] < r[l]
    ensures forall i :: 0 <= i < |vars| ==> (i in r <==> IsUploadVariable(reg, vars[i]))
  {
    if |vars| == 0 then []
    else
      var n := |vars| - 1;
      UploadIndices(reg, vars[..n]) + (if IsUploadVariable(reg, vars[n]) then [n] else [])
  }

  /** The context's errors are `before` followed by one Upload error per offending
      variable of `vars`, in declaration order. */
  ghost predicate ReportsUploadsAfter(before: seq<RuleError>, errors: seq<RuleError>, reg: Registry,
                                      vars: seq<VariableDefinition>)
  {
    var idx := UploadIndices(reg, vars);
    && |errors| == |before| + |idx|
    && errors[..|before|] == before
    && forall k :: 0 <= k < |idx| ==> errors[|before| + k] == UploadError(vars[idx[k]])
  }

  // ---------------------------------------------------------------------------
  // The rule.
  // ---------------------------------------------------------------------------

  /** One iteration of the loop over the variable definitions. */
  function CheckVariable(ctx: ValidatorContext, v: VariableDefinition): ValidatorContext
  {
    if IsUploadVariable(ctx.registry, v) then ReportError(ctx, [v.position], UploadMessage)
    else ctx
  }

  /** The loop over the variable definitions: the first `|vars| - 1` are
      checked, then the last one, so variables are visited in declaration order. */
  function CheckVariables(ctx: ValidatorContext, vars: seq<VariableDefinition>): ValidatorContext
  {
    if |vars| == 0 then ctx
    else
      var n := |vars| - 1;
      CheckVariable(CheckVariables(ctx, vars[..n]), vars[n])
  }

  lemma {:induction false} CheckVariablesReportsUploads(ctx: ValidatorContext, vars: seq<VariableDefinition>)
    ensures CheckVariables(ctx, vars).registry == ctx.registry
    ensures ReportsUploadsAfter(ctx.errors, CheckVariables(ctx, vars).errors, ctx.registry, vars)
  {
    if |vars| > 0 {
      var n := |vars| - 1;
      var pre := vars[..n];
      var c1 := CheckVariables(ctx, pre);
      CheckVariablesReportsUploads(ctx, pre);
      var reg := ctx.registry;
      var idx1 := UploadIndices(reg, pre);
      var idx := UploadIndices(reg, vars);
      var r := CheckVariables(ctx, vars);
      assert r == CheckVariable(c1, vars[n]);
      assert idx[..|idx1|] == idx1;
      forall k | 0 <= k < |idx1|
        ensures r.errors[|ctx.errors| + k] == UploadError(vars[idx[k]])
      {
        assert idx[k] == idx1[k];
        assert vars[idx[k]] == pre[idx1[k]];
        assert r.errors[|ctx.errors| + k] == c1.errors[|ctx.errors| + k];
      }
      assert r.errors[..|ctx.errors|] == c1.errors[..|ctx.errors|];
    }
  }

  /** `Visitor::enter_operation_definition` of the Upload rule. */
  function EnterOperationDefinition(ctx: ValidatorContext, op: OperationDefinition): (r: ValidatorContext)
    ensures r.registry == ctx.registry
    ensures !op.Query? ==> r == ctx
    ensures op.Query? ==> ReportsUploadsAfter(ctx.errors, r.errors, ctx.registry, op.variableDefinitions)
  {
    match op
    case Query(_, vars) =>
      CheckVariablesReportsUploads(ctx, vars);
      CheckVariables(ctx, vars)
    case _ => ctx
  }

  // ---------------------------------------------------------------------------
  // Properties of the rule.
  // ---------------------------------------------------------------------------

  /** Checking a concatenation is checking its parts one after the other. */
  lemma {:induction false} CheckVariablesAppend(ctx: ValidatorContext, a: seq<VariableDefinition>,
                                                b: seq<VariableDefinition>)
    ensures CheckVariables(ctx, a + b) == CheckVariables(CheckVariables(ctx, a), b)
    decreases |b|
  {
    if |b| == 0 {
      assert a + b == a;
    } else {
      var n := |b| - 1;
      assert (a + b)[..|a + b| - 1] == a + b[..n];
      assert (a + b)[|a + b| - 1] == b[n];
      CheckVariablesAppend(ctx, a, b[..n]);
    }
  }

  /** Inserting a variable that is not Upload-typed anywhere in a query's
      variable list changes nothing: neither an undeclared type nor a
      declared type of another name is ever reported. */
  lemma NonUploadVariableChangesNothing(ctx: ValidatorContext, name: Option<string>,
                                        pre: seq<VariableDefinition>, v: VariableDefinition,
                                        post: seq<VariableDefinition>)
    requires !IsUploadVariable(ctx.registry, v)
    ensures EnterOperationDefinition(ctx, Query(name, pre + [v] + post))
         == EnterOperationDefinition(ctx, Query(name, pre + post))
  {
    CheckVariablesAppend(ctx, pre + [v], post);
    CheckVariablesAppend(ctx, pre, [v]);
    CheckVariablesAppend(ctx, pre, post);
    CheckVariablesReportsUploads(ctx, pre);
    assert [v][..0] == [];
  }

  /** A variable whose type does not resolve in the registry is never reported. */
  lemma UnresolvedVariableIgnored(ctx: ValidatorContext, name: Option<string>,
                                  pre: seq<VariableDefinition>, v: VariableDefinition,
                                  post: seq<VariableDefinition>)
    requires BasicTypeByParsedType(ctx.registry, v.varType) == None
    ensures EnterOperationDefinition(ctx, Query(name, pre + [v] + post))
         == EnterOperationDefinition(ctx, Query(name, pre + post))
  {
    NonUploadVariableChangesNothing(ctx, name, pre, v, post);
  }

  /** The name comparison is exact: a declared type named anything other than
      `Upload` (`upload`, `Upload2`, ...) is never reported. */
  lemma OtherTypeNameIgnored(ctx: ValidatorContext, name: Option<string>,
                             pre: seq<VariableDefinition>, v: VariableDefinition,
                             post: seq<VariableDefinition>)
    requires BasicTypeByParsedType(ctx.registry, v.varType).Some?
    requires BasicTypeByParsedType(ctx.registry, v.varType).value.name != UploadTypeName
    ensures EnterOperationDefinition(ctx, Query(name, pre + [v] + post))
         == EnterOperationDefinition(ctx, Query(name, pre + post))
  {
    NonUploadVariableChangesNothing(ctx, name, pre, v, post);
  }

  /** The set of entries of a sequence. */
  function Elements(s: seq<nat>): (r: set<nat>)
    ensures forall x :: x in r <==> x in s
  {
    if |s| == 0 then {} else Elements(s[..|s| - 1]) + {s[|s| - 1]}
  }

  /** A strictly increasing sequence has as many distinct entries as it has entries. */
  lemma {:induction false} IncreasingHasDistinctElements(s: seq<nat>)
    requires forall k, l :: 0 <= k < l < |s| ==> s[k] < s[l]
    ensures |Elements(s)| == |s|
  {
    if |s| > 0 {
      var n := |s| - 1;
      IncreasingHasDistinctElements(s[..n]);
      assert s[n] !in s[..n];
    }
  }

  /** The number of errors a query gains is the number of its variables whose
      type resolves to `Upload`. */
  lemma UploadErrorCount(ctx: ValidatorContext, name: Option<string>, vars: seq<VariableDefinition>)
    ensures |EnterOperationDefinition(ctx, Query(name, vars)).errors|
         == |ctx.errors| + |set i | 0 <= i < |vars| && IsUploadVariable(ctx.registry, vars[i])|
  {
    var idx := UploadIndices(ctx.registry, vars);
    IncreasingHasDistinctElements(idx);
    assert Elements(idx) == (set i | 0 <= i < |vars| && IsUploadVariable(ctx.registry, vars[i]));
  }

  /** A query none of whose variables resolves to `Upload` gains no error. */
  lemma NoUploadVariableNoError(ctx: ValidatorContext, name: Option<string>, vars: seq<VariableDefinition>)
    requires forall i :: 0 <= i < |vars| ==> !IsUploadVariable(ctx.registry, vars[i])
    ensures EnterOperationDefinition(ctx, Query(name, vars)) == ctx
  {
    var idx := UploadIndices(ctx.registry, vars);
    var r := EnterOperationDefinition(ctx, Query(name, vars));
    IncreasingHasDistinctElements(idx);
    assert Elements(idx) == {};
    assert r.errors == r.errors[..|ctx.errors|];
  }

  /** A query with exactly one Upload-typed variable gains exactly one error,
      positioned at that variable's declaration. */
  lemma OneUploadVariableOneError(ctx: ValidatorContext, name: Option<string>,
                                  vars: seq<VariableDefinition>, i: nat)
    requires i < |vars| && IsUploadVariable(ctx.registry, vars[i])
    requires forall j :: 0 <= j < |vars| && j != i ==> !IsUploadVariable(ctx.registry, vars[j])
    ensures EnterOperationDefinition(ctx, Query(name, vars)).errors
         == ctx.errors + [RuleError([vars[i].position], UploadMessage)]
  {
    var idx := UploadIndices(ctx.registry, vars);
    var r := EnterOperationDefinition(ctx, Query(name, vars));
    assert i in idx;
    IncreasingHasDistinctElements(idx);
    assert Elements(idx) == {i};
    assert idx == [i];
    assert r.errors == r.errors[..|ctx.errors|] + [r.errors[|ctx.errors|]];
  }

  /** The same variables under a mutation are accepted, while as a query an
      Upload-typed variable is reported. */
  lemma UploadAllowedOnlyOnMutation(ctx: ValidatorContext, name: Option<string>,
                                    vars: seq<VariableDefinition>, i: nat)
    requires i < |vars| && IsUploadVariable(ctx.registry, vars[i])
    ensures UploadError(vars[i]) in EnterOperationDefinition(ctx, Query(name, vars)).errors[|ctx.errors|..]
    ensures EnterOperationDefinition(ctx, Mutation(name, vars)) == ctx
  {
    var idx := UploadIndices(ctx.registry, vars);
    var r := EnterOperationDefinition(ctx, Query(name, vars));
    assert i in idx;
    var k :| 0 <= k < |idx| && idx[k] == i;
    assert r.errors[|ctx.errors|..][k] == r.errors[|ctx.errors| + k];
  }

  /** What the rule appends depends only on the registry and the operation,
      not on errors already in the context. */
  lemma AppendedErrorsIgnoreExisting(ctx1: ValidatorContext, ctx2: ValidatorContext, op: OperationDefinition)
    requires ctx1.registry == ctx2.registry
    ensures EnterOperationDefinition(ctx1, op).errors[|ctx1.errors|..]
         == EnterOperationDefinition(ctx2, op).errors[|ctx2.errors|..]
  {
    var r1 := EnterOperationDefinition(ctx1, op);
    var r2 := EnterOperationDefinition(ctx2, op);
    if op.Query? {
      var vars := op.variableDefinitions;
      var idx := UploadIndices(ctx1.registry, vars);
      var d1 := r1.errors[|ctx1.errors|..];
      var d2 := r2.errors[|ctx2.errors|..];
      assert ReportsUploadsAfter(ctx1.errors, r1.errors, ctx1.registry, vars);
      assert ReportsUploadsAfter(ctx2.errors, r2.errors, ctx2.registry, vars);
      assert |d1| == |idx| == |d2|;
      forall k | 0 <= k < |d1|
        ensures d1[k] == d2[k]
      {
        assert d1[k] == r1.errors[|ctx1.errors| + k] == UploadError(vars[idx[k]]);
        assert d2[k] == r2.errors[|ctx2.errors| + k] == UploadError(vars[idx[k]]);
      }
    } else {
      assert r1.errors[|ctx1.errors|..] == [];
      assert r2.errors[|ctx2.errors|..] == [];
    }
  }

  /** Running the hook twice on the same operation appends the same errors twice. */
  lemma RunningTwiceAppendsTwice(ctx: ValidatorContext, op: OperationDefinition)
    ensures var once := EnterOperationDefinition(ctx, op);
            var twice := EnterOperationDefinition(once, op);
            var added := once.errors[|ctx.errors|..];
            twice.errors == ctx.errors + added + added
  {
    var once := EnterOperationDefinition(ctx, op);
    var twice := EnterOperationDefinition(once, op);
    AppendedErrorsIgnoreExisting(ctx, once, op);
    assert once.errors == ctx.errors + once.errors[|ctx.errors|..];
    assert twice.errors == once.errors + twice.errors[|once.errors|..];
  }

  /** In a well-formed registry, a variable is reported exactly when its base
      type name is `Upload` and the schema declares `Upload`. */
  lemma UploadVariableIffDeclaredUpload(reg: Registry, v: VariableDefinition)
    requires WellFormed(reg)
    ensures IsUploadVariable(reg, v) <==> BaseTypeName(v.varType) == UploadTypeName && UploadTypeName in reg.types
  {
  }

  // ---------------------------------------------------------------------------
  // Worked examples.
  // ---------------------------------------------------------------------------

  /** `query Q($f: [Upload!]) { dummy }` against a schema declaring the
      `Upload` scalar gains one error at `$f`; as a mutation it gains none. */
  lemma ExampleUploadOnQuery()
    ensures var reg := Registry(map["Upload" := MetaType(Scalar, "Upload")]);
            var ctx := ValidatorContext(reg, []);
            var f := VariableDefinition(Pos(1, 9), "f", ListType(NonNullType(NamedType("Upload"))));
            && EnterOperationDefinition(ctx, Query(Some("Q"), [f])).errors
               == [RuleError([Pos(1, 9)], "The Upload type is only allowed to be defined on a mutation")]
            && EnterOperationDefinition(ctx, Mutation(Some("Q"), [f])).errors == []
  {
    var reg := Registry(map["Upload" := MetaType(Scalar, "Upload")]);
    var ctx := ValidatorContext(reg, []);
    var f := VariableDefinition(Pos(1, 9), "f", ListType(NonNullType(NamedType("Upload"))));
    assert IsUploadVariable(reg, f);
    OneUploadVariableOneError(ctx, Some("Q"), [f], 0);
  }

  /** Types named `upload` or `Upload2`, and an undeclared `Upload`, are not reported. */
  lemma ExampleNameComparisonIsExact()
    ensures var reg := Registry(map["upload" := MetaType(Scalar, "upload"),
                                    "Upload2" := MetaType(Scalar, "Upload2")]);
            var ctx := ValidatorContext(reg, []);
            var a := VariableDefinition(Pos(1, 9), "a", NamedType("upload"));
            var b := VariableDefinition(Pos(1, 20), "b", NonNullType(NamedType("Upload2")));
            var c := VariableDefinition(Pos(1, 32), "c", NamedType("Upload"));
            EnterOperationDefinition(ctx, Query(None, [a, b, c])).errors == []
  {
    var reg := Registry(map["upload" := MetaType(Scalar, "upload"),
                            "Upload2" := MetaType(Scalar, "Upload2")]);
    var a := VariableDefinition(Pos(1, 9), "a", NamedType("upload"));
    var b := VariableDefinition(Pos(1, 20), "b", NonNullType(NamedType("Upload2")));
    var c := VariableDefinition(Pos(1, 32), "c", NamedType("Upload"));
    assert !IsUploadVariable(reg, a);
    assert !IsUploadVariable(reg, b);
    assert !IsUploadVariable(reg, c);
    NoUploadVariableNoError(ValidatorContext(reg, []), None, [a, b, c]);
  }
}

/** Collecting configuration validation errors per config file and turning them into one exception:
  * the error records, the validator's state, the grouping by error type and the final message. */
module ConfigValidation {
  import opened Wrappers
  import Dicts
  import Strs

  datatype ConfigSource = Main | Secrets {
    function Val(): string {
      match this
      case Main => "main config"
      case Secrets => "secrets config"
    }
  }

  datatype ErrorType = UndefinedConfig | InvalidConfigValue {
    function HumanReadable(): (r: string)
      ensures |r| > 0 && r[0] != 'M'
    {
      match this
      case UndefinedConfig => "Undefined configs"
      case InvalidConfigValue => "Invalid config value"
    }
  }

  /** The error types in declaration order. */
  const ErrorTypes: seq<ErrorType> := [UndefinedConfig, InvalidConfigValue]

  datatype Context = Context(source: ConfigSource, file: string)

  /** The three kinds of validation error. A field error carries the shortened field value computed
    * when it was made. */
  datatype ValidationError =
    | FieldError(kind: ErrorType, message: string, objPath: Option<string>, fieldName: Option<string>,
                 fieldValue: Option<string>, varName: Option<string>, shortValue: Option<string>)
    | MissingConfig(kind: ErrorType, message: string, ctxPath: Option<string>, cfg: string, value: Option<string>)
    | Workflow(kind: ErrorType, message: string, ctxPath: Option<string>, additionalInfo: string)

  /** An error together with the context it was reported in. */
  datatype Reported = Reported(error: ValidationError, src: Option<Context>)

  /** An optional string as an f-string shows it. */
  function Show(o: Option<string>): string {
    match o
    case None => "None"
    case Some(s) => s
  }

  predicate OccursAt(s: string, pat: string, i: int) {
    0 <= i && i + |pat| <= |s| && s[i..i + |pat|] == pat
  }

  predicate Contains(s: string, pat: string) {
    exists i | 0 <= i <= |s| :: OccursAt(s, pat, i)
  }

  /** `lines[i]` is the first line containing `pat`. */
  predicate FirstAt(lines: seq<string>, pat: string, i: int) {
    0 <= i < |lines| && Contains(lines[i], pat) && forall j :: 0 <= j < i ==> !Contains(lines[j], pat)
  }

  /** The first line containing `pat`, if any. */
  function FirstContaining(lines: seq<string>, pat: string): (r: Option<string>)
    ensures r.None? <==> forall i :: 0 <= i < |lines| ==> !Contains(lines[i], pat)
    ensures r.Some? ==> exists i :: FirstAt(lines, pat, i) && lines[i] == r.value
  {
    if |lines| == 0 then None
    else if Contains(lines[0], pat) then Some(lines[0])
    else
      var r := FirstContaining(lines[1..], pat);
      assert forall i :: 1 <= i < |lines| ==> lines[i] == lines[1..][i - 1];
      if r.Some? then
        var i :| FirstAt(lines[1..], pat, i) && lines[1..][i] == r.value;
        assert FirstAt(lines, pat, i + 1);
        r
      else r
  }

  /** The part of a field value an error shows: an empty or single-line value as it is, and of a
    * multi-line value the first whole line mentioning `${var}`. Without a variable name the pattern
    * cannot be built (TypeError); without a matching line there is no first match (IndexError). */
  function ShortMatch(fieldValue: Option<string>, varName: Option<string>): (r: Result<Option<string>, Exc>)
    ensures !Truthy(fieldValue) || '\n' !in fieldValue.value ==> r == Ok(fieldValue)
    ensures r.Ok? && Truthy(fieldValue) && '\n' in fieldValue.value ==>
      varName.Some? && r.value.Some? && '\n' !in r.value.value && Contains(r.value.value, "${" + varName.value + "}")
    ensures r.Ok? && Truthy(fieldValue) && '\n' in fieldValue.value && varName.Some? ==>
      exists i :: FirstAt(Strs.Split(fieldValue.value, '\n'), "${" + varName.value + "}", i)
        && r.value == Some(Strs.Split(fieldValue.value, '\n')[i])
    ensures Truthy(fieldValue) && '\n' in fieldValue.value && varName.Some? && r.Err? ==>
      r.error.IndexError? && forall i :: 0 <= i < |Strs.Split(fieldValue.value, '\n')| ==>
        !Contains(Strs.Split(fieldValue.value, '\n')[i], "${" + varName.value + "}")
    ensures Truthy(fieldValue) && '\n' in fieldValue.value && varName.Some? && r.Ok? ==>
      exists i :: 0 <= i < |Strs.Split(fieldValue.value, '\n')| &&
        Contains(Strs.Split(fieldValue.value, '\n')[i], "${" + varName.value + "}")
    ensures Truthy(fieldValue) && '\n' in fieldValue.value && varName.None? ==> r.Err? && r.error.TypeError?
  {
    if !Truthy(fieldValue) || '\n' !in fieldValue.value then Ok(fieldValue)
    else if varName.None? then Err(TypeError("can only concatenate str (not \"NoneType\") to str"))
    else
      var lines := Strs.Split(fieldValue.value, '\n');
      match FirstContaining(lines, "${" + varName.value + "}")
      case None => Err(IndexError(0))
      case Some(line) => Ok(Some(line))
  }

  /** A field error; making one computes its short value, which can fail. */
  function NewFieldError(kind: ErrorType, message: string, objPath: Option<string>, fieldName: Option<string>,
                         fieldValue: Option<string>, varName: Option<string>): (r: Result<ValidationError, Exc>)
    ensures r.Ok? <==> ShortMatch(fieldValue, varName).Ok?
    ensures r.Ok? ==> r.value.FieldError? && r.value.fieldValue == fieldValue && r.value.kind == kind
    ensures r.Ok? ==> r.value.shortValue == ShortMatch(fieldValue, varName).value
  {
    var short :- ShortMatch(fieldValue, varName);
    Ok(FieldError(kind, message, objPath, fieldName, fieldValue, varName, short))
  }

  /** The one-line (or, for a missing config, two-line) summary of an error. */
  function ToShortStr(e: ValidationError): string {
    match e
    case FieldError(_, _, objPath, fieldName, _, varName, short) =>
      if Truthy(varName) then "Var: " + varName.value + ", path: " + Show(objPath) + ", value: " + Show(short)
      else "Field: " + Show(fieldName) + ", path: " + Show(objPath) + ", value: " + Show(short)
    case MissingConfig(_, _, ctxPath, cfg, value) =>
      "Context path: " + Show(ctxPath) + "\nconfig: " + cfg + ", value: " + Show(value)
    case Workflow(_, message, ctxPath, info) =>
      "Message: " + message + ", Context path: " + Show(ctxPath) + ", additional_info: " + info
  }

  function InfoPrefix(cfg: string, value: string): string {
    "config: " + cfg + ", value: " + value
  }

  /** The error for a value that failed its check: the config and value, then the additional message
    * exactly when one is given and non-empty. */
  function CreateInvalidConfigValue(message: string, cfg: string, value: string, additional: Option<string>)
    : (r: ValidationError)
    ensures r.Workflow? && r.kind == InvalidConfigValue && r.message == message && r.ctxPath.None?
    ensures Strs.StartsWith(r.additionalInfo, InfoPrefix(cfg, value))
    ensures r.additionalInfo == InfoPrefix(cfg, value) <==> !Truthy(additional)
    ensures Truthy(additional) ==>
      r.additionalInfo[|InfoPrefix(cfg, value)|..] == ", additional message: " + additional.value
  {
    var base := InfoPrefix(cfg, value);
    var info := if Truthy(additional) then base + ", additional message: " + additional.value else base;
    assert info[..|base|] == base;
    Workflow(InvalidConfigValue, message, None, info)
  }

  /** The error for a required config that is not defined. */
  function CreateUndefinedConfigError(message: string, ctxPath: Option<string>, cfg: string, value: Option<string>)
    : (r: ValidationError)
    ensures r.MissingConfig? && r.kind == UndefinedConfig && r.cfg == cfg && r.message == message
  {
    MissingConfig(UndefinedConfig, message, ctxPath, cfg, value)
  }

  /** The validator: reported errors per context in first-report order, the field values of reported
    * field errors, the messages of unresolved values nobody reported, and the current context. */
  datatype Validator = Validator(
    errors: Dicts.Dict<Option<Context>, seq<Reported>>,
    fieldValues: set<Option<string>>,
    newErrors: seq<string>,
    context: Option<Context>)

  const NewValidator := Validator([], {}, [], None)

  function SetContext(v: Validator, ctx: Context): (r: Validator)
    ensures r.context == Some(ctx) && r.errors == v.errors && r.fieldValues == v.fieldValues && r.newErrors == v.newErrors
  {
    v.(context := Some(ctx))
  }

  /** Each context appears once, and every error stored under it was reported in it. */
  ghost predicate Valid(v: Validator) {
    Dicts.DistinctKeys(v.errors)
    && forall i, j :: 0 <= i < |v.errors| && 0 <= j < |v.errors[i].1| ==> v.errors[i].1[j].src == v.errors[i].0
  }

  /** `report_error`: the error goes last under the current context, marked with that context; a field
    * error also records its field value. */
  function ReportError(v: Validator, e: ValidationError): (r: Validator)
    ensures Dicts.DistinctKeys(v.errors) ==> Dicts.DistinctKeys(r.errors)
    ensures r.fieldValues == if e.FieldError? then v.fieldValues + {e.fieldValue} else v.fieldValues
    ensures r.newErrors == v.newErrors && r.context == v.context
  {
    v.(errors := Dicts.AppendTo(v.errors, v.context, Reported(e, v.context)),
       fieldValues := if e.FieldError? then v.fieldValues + {e.fieldValue} else v.fieldValues)
  }

  /** After reporting, the current context holds its earlier errors followed by the new one; every
    * other context holds what it held. */
  lemma ReportErrorGet(v: Validator, e: ValidationError)
    requires Dicts.DistinctKeys(v.errors)
    ensures Dicts.Get(ReportError(v, e).errors, v.context) == Some(Dicts.Get(v.errors, v.context).GetOr([]) + [Reported(e, v.context)])
    ensures forall c :: c != v.context ==> Dicts.Get(ReportError(v, e).errors, c) == Dicts.Get(v.errors, c)
  {
    Dicts.AppendToGet(v.errors, v.context, Reported(e, v.context));
  }

  /** Reporting keeps the validator valid. */
  lemma ReportErrorValid(v: Validator, e: ValidationError)
    requires Valid(v)
    ensures Valid(ReportError(v, e))
  {
    var r := ReportError(v, e);
    ReportErrorGet(v, e);
    forall i, j | 0 <= i < |r.errors| && 0 <= j < |r.errors[i].1| ensures r.errors[i].1[j].src == r.errors[i].0 {
      var c := r.errors[i].0;
      Dicts.GetMembers(r.errors, c);
      Dicts.GetMembers(v.errors, c);
      assert r.errors[i] in r.errors;
      assert Dicts.Get(r.errors, c) == Some(r.errors[i].1);
      if c == v.context {
        var prior := Dicts.Get(v.errors, c).GetOr([]);
        if j < |prior| {
          var k :| 0 <= k < |v.errors| && v.errors[k] == (c, prior);
          assert v.errors[k].1[j] == prior[j];
        }
      } else {
        var k :| 0 <= k < |v.errors| && v.errors[k] == (c, r.errors[i].1);
        assert v.errors[k].1[j] == r.errors[i].1[j];
      }
    }
  }

  function ReportAll(v: Validator, es: seq<ValidationError>): (r: Validator)
    ensures r.context == v.context && r.newErrors == v.newErrors
    ensures Dicts.DistinctKeys(v.errors) ==> Dicts.DistinctKeys(r.errors)
    decreases |es|
  {
    if |es| == 0 then v else ReportAll(ReportError(v, es[0]), es[1..])
  }

  function MarkAll(es: seq<ValidationError>, ctx: Option<Context>): (r: seq<Reported>)
    ensures |r| == |es| && forall i :: 0 <= i < |es| ==> r[i] == Reported(es[i], ctx)
  {
    seq(|es|, i requires 0 <= i < |es| => Reported(es[i], ctx))
  }

  /** Reporting a run of errors appends them, marked with the context, under the current context. */
  lemma {:induction false} ReportAllAppends(v: Validator, es: seq<ValidationError>)
    ensures ReportAll(v, es).context == v.context
    ensures ReportAll(v, es).errors == Dicts.AppendAll(v.errors, v.context, MarkAll(es, v.context))
    decreases |es|
  {
    if |es| > 0 {
      ReportAllAppends(ReportError(v, es[0]), es[1..]);
      assert MarkAll(es, v.context)[1..] == MarkAll(es[1..], v.context);
    }
  }

  /** Errors reported one after another sit under the context in report order, after the earlier
    * ones; no other context changes. */
  lemma ReportAllInOrder(v: Validator, es: seq<ValidationError>)
    requires Dicts.DistinctKeys(v.errors) && |es| > 0
    ensures Dicts.DistinctKeys(ReportAll(v, es).errors)
    ensures Dicts.Get(ReportAll(v, es).errors, v.context) == Some(Dicts.Get(v.errors, v.context).GetOr([]) + MarkAll(es, v.context))
    ensures forall c :: c != v.context ==> Dicts.Get(ReportAll(v, es).errors, c) == Dicts.Get(v.errors, c)
  {
    ReportAllAppends(v, es);
    Dicts.AppendAllKeeps(v.errors, v.context, MarkAll(es, v.context));
    Dicts.AppendAllGet(v.errors, v.context, MarkAll(es, v.context));
  }

  /** `check_if_already_reported`: the message is kept as a new error exactly when no reported field
    * error carried that field value. */
  function CheckIfAlreadyReported(v: Validator, message: string, fieldValue: Option<string>): (r: Validator)
    ensures fieldValue in v.fieldValues ==> r == v
    ensures fieldValue !in v.fieldValues ==> r.newErrors == v.newErrors + [message]
    ensures r.errors == v.errors && r.fieldValues == v.fieldValues && r.context == v.context
  {
    if fieldValue !in v.fieldValues then v.(newErrors := v.newErrors + [message]) else v
  }

  /** A value reported through a field error is never a new error afterwards; one nobody reported is. */
  lemma ReportedValueNotNew(v: Validator, e: ValidationError, m: string, other: ValidationError)
    requires e.FieldError?
    ensures var r := ReportError(ReportError(v, e), other);
      CheckIfAlreadyReported(r, m, e.fieldValue) == r
    ensures !other.FieldError? && e.fieldValue !in v.fieldValues ==>
      CheckIfAlreadyReported(ReportError(v, other), m, e.fieldValue).newErrors == v.newErrors + [m]
  {
  }

  /** The errors of a validator, each with the context it is stored under, in dict order. */
  function Flatten(errors: Dicts.Dict<Option<Context>, seq<Reported>>): (r: seq<(Option<Context>, ValidationError)>)
    decreases |errors|
  {
    if |errors| == 0 then []
    else
      var (c, rs) := errors[0];
      seq(|rs|, j requires 0 <= j < |rs| => (c, rs[j].error)) + Flatten(errors[1..])
  }

  /** The short strings of the errors of type `t` reported in a context of source `s`, in order. */
  function Matching(pairs: seq<(Option<Context>, ValidationError)>, t: ErrorType, s: ConfigSource): seq<string>
    decreases |pairs|
  {
    if |pairs| == 0 then []
    else
      var p := pairs[|pairs| - 1];
      Matching(pairs[..|pairs| - 1], t, s)
        + (if p.1.kind == t && p.0.Some? && p.0.value.source == s then [ToShortStr(p.1)] else [])
  }

  /** Some error of type `t` has no context. */
  predicate Orphan(pairs: seq<(Option<Context>, ValidationError)>, t: ErrorType) {
    exists i :: 0 <= i < |pairs| && pairs[i].1.kind == t && pairs[i].0.None?
  }

  predicate HasType(pairs: seq<(Option<Context>, ValidationError)>, t: ErrorType) {
    exists i :: 0 <= i < |pairs| && pairs[i].1.kind == t
  }

  /** The loop of `_filter_by_type` over the flattened errors: short strings of type `t` grouped by
    * the name of their config source. An error of that type without a context fails on the missing
    * context. */
  function FilterPairs(pairs: seq<(Option<Context>, ValidationError)>, t: ErrorType)
    : (r: Result<Dicts.Dict<string, seq<string>>, Exc>)
    ensures r.Err? ==> r.error == AttributeError("'NoneType' object has no attribute 'conf_source'")
    decreases |pairs|
  {
    if |pairs| == 0 then Ok([])
    else
      var acc :- FilterPairs(pairs[..|pairs| - 1], t);
      var p := pairs[|pairs| - 1];
      if p.1.kind != t then Ok(acc)
      else
        match p.0
        case None => Err(AttributeError("'NoneType' object has no attribute 'conf_source'"))
        case Some(ctx) => Ok(Dicts.AppendTo(acc, ctx.source.Val(), ToShortStr(p.1)))
  }

  /** Grouping fails exactly when an error of the type has no context. */
  lemma {:induction false} FilterPairsFails(pairs: seq<(Option<Context>, ValidationError)>, t: ErrorType)
    ensures FilterPairs(pairs, t).Err? <==> Orphan(pairs, t)
    decreases |pairs|
  {
    if |pairs| > 0 {
      var n := |pairs| - 1;
      var pre := pairs[..n];
      FilterPairsFails(pre, t);
      assert forall i :: 0 <= i < n ==> pre[i] == pairs[i];
      if Orphan(pairs, t) && !Orphan(pre, t) {
        var i :| 0 <= i < |pairs| && pairs[i].1.kind == t && pairs[i].0.None?;
        assert i == n;
      }
    }
  }

  /** The step of `FilterPairsGroups` for a last pair of the type: its short string goes last under
    * its source. */
  lemma GroupsStep(pairs: seq<(Option<Context>, ValidationError)>, t: ErrorType)
    requires |pairs| > 0 && FilterPairs(pairs, t).Ok? && pairs[|pairs| - 1].1.kind == t
    requires var pre := pairs[..|pairs| - 1];
      Dicts.DistinctKeys(FilterPairs(pre, t).value)
      && forall s: ConfigSource :: Dicts.Get(FilterPairs(pre, t).value, s.Val()).GetOr([]) == Matching(pre, t, s)
    ensures Dicts.DistinctKeys(FilterPairs(pairs, t).value)
    ensures forall s: ConfigSource :: Dicts.Get(FilterPairs(pairs, t).value, s.Val()).GetOr([]) == Matching(pairs, t, s)
    ensures |FilterPairs(pairs, t).value| != 0 && HasType(pairs, t)
  {
    var n := |pairs| - 1;
    var pre := pairs[..n];
    var acc := FilterPairs(pre, t).value;
    var p := pairs[n];
    var ctx := p.0.value;
    var r := Dicts.AppendTo(acc, ctx.source.Val(), ToShortStr(p.1));
    Dicts.AppendToGet(acc, ctx.source.Val(), ToShortStr(p.1));
    assert FilterPairs(pairs, t).value == r;
    forall s: ConfigSource ensures Dicts.Get(r, s.Val()).GetOr([]) == Matching(pairs, t, s) {
      if s != ctx.source {
        assert s.Val() != ctx.source.Val();
      }
    }
    assert HasType(pairs, t);
  }

  /** The step of `FilterPairsGroups` for a last pair of another type: nothing changes. */
  lemma GroupsSkip(pairs: seq<(Option<Context>, ValidationError)>, t: ErrorType)
    requires |pairs| > 0 && pairs[|pairs| - 1].1.kind != t
    ensures var pre := pairs[..|pairs| - 1];
      FilterPairs(pairs, t) == FilterPairs(pre, t)
      && (forall s: ConfigSource :: Matching(pairs, t, s) == Matching(pre, t, s))
      && (HasType(pairs, t) <==> HasType(pre, t))
  {
    var n := |pairs| - 1;
    var pre := pairs[..n];
    if HasType(pairs, t) {
      var i :| 0 <= i < |pairs| && pairs[i].1.kind == t;
      assert i < n && pre[i].1.kind == t;
    }
    if HasType(pre, t) {
      var i :| 0 <= i < n && pre[i].1.kind == t;
      assert pairs[i] == pre[i];
    }
  }

  /** The groups have distinct names, each holding the matching short strings of its source in order,
    * and there are groups exactly when some error has the type. */
  lemma {:induction false} FilterPairsGroups(pairs: seq<(Option<Context>, ValidationError)>, t: ErrorType)
    requires FilterPairs(pairs, t).Ok?
    ensures Dicts.DistinctKeys(FilterPairs(pairs, t).value)
    ensures forall s: ConfigSource :: Dicts.Get(FilterPairs(pairs, t).value, s.Val()).GetOr([]) == Matching(pairs, t, s)
    ensures |FilterPairs(pairs, t).value| == 0 <==> !HasType(pairs, t)
    decreases |pairs|
  {
    if |pairs| > 0 {
      var n := |pairs| - 1;
      var pre := pairs[..n];
      FilterPairsGroups(pre, t);
      assert forall i :: 0 <= i < n ==> pre[i] == pairs[i];
      if pairs[n].1.kind == t {
        GroupsStep(pairs, t);
      } else {
        GroupsSkip(pairs, t);
      }
    }
  }

  /** `_filter_by_type`. */
  function FilterByType(v: Validator, t: ErrorType): (r: Result<Dicts.Dict<string, seq<string>>, Exc>)
    ensures r.Err? <==> Orphan(Flatten(v.errors), t)
    ensures r.Ok? ==> (|r.value| == 0 <==> !HasType(Flatten(v.errors), t))
    ensures r.Ok? ==> forall s: ConfigSource :: Dicts.Get(r.value, s.Val()).GetOr([]) == Matching(Flatten(v.errors), t, s)
  {
    var pairs := Flatten(v.errors);
    FilterPairsFails(pairs, t);
    var r := FilterPairs(pairs, t);
    if r.Ok? then FilterPairsGroups(pairs, t); r else r
  }

  /** The section of the failure message for one error type's groups; none for no groups. */
  function Section(t: ErrorType, groups: Dicts.Dict<string, seq<string>>, dumps: Dicts.Dict<string, seq<string>> -> string): string {
    if |groups| > 0 then t.HumanReadable() + "\n" + dumps(groups) + "\n" else ""
  }

  /** `fail_if_errors`, with the JSON rendering of each type's groups given as `dumps`: a
    * TrelloConfigException whose message lists each error type that has errors, headed by a
    * multiple-types line when more than one does. */
  function FailIfErrors(v: Validator, dumps: Dicts.Dict<string, seq<string>> -> string): (r: Result<(), Exc>)
    ensures Orphan(Flatten(v.errors), UndefinedConfig) || Orphan(Flatten(v.errors), InvalidConfigValue) <==>
      r.Err? && r.error.AttributeError?
    ensures r.Err? && !r.error.AttributeError? ==> r.error.TrelloConfigException?
  {
    var undefined :- FilterByType(v, UndefinedConfig);
    var invalid :- FilterByType(v, InvalidConfigValue);
    var msg := FailureMessage(undefined, invalid, dumps);
    if msg != "" then Err(TrelloConfigException(msg)) else Ok(())
  }

  /** The failure message for the two types' groups: empty when neither has any, headed by the
    * multiple-types line exactly when both have some. */
  function FailureMessage(undefined: Dicts.Dict<string, seq<string>>, invalid: Dicts.Dict<string, seq<string>>,
                          dumps: Dicts.Dict<string, seq<string>> -> string): (msg: string)
    ensures msg == "" <==> |undefined| == 0 && |invalid| == 0
    ensures msg != "" ==> (Strs.StartsWith(msg, "Multiple error types found!") <==> |undefined| > 0 && |invalid| > 0)
  {
    var nonEmpty := (if |undefined| > 0 then 1 else 0) + (if |invalid| > 0 then 1 else 0);
    var head := if nonEmpty > 1 then "Multiple error types found!\n\n" else "";
    var msg := head + Section(UndefinedConfig, undefined, dumps) + Section(InvalidConfigValue, invalid, dumps);
    var prefix := "Multiple error types found!";
    if |undefined| > 0 && |invalid| > 0 then
      assert msg[..|prefix|] == prefix;
      msg
    else if |undefined| > 0 || |invalid| > 0 then
      var s := if |undefined| > 0 then UndefinedConfig.HumanReadable() else InvalidConfigValue.HumanReadable();
      assert msg[0] == s[0] && s[0] != prefix[0];
      msg
    else
      msg
  }

  /** When every error has a context: the validator fails exactly when some error was reported, and
    * the message opens with the multiple-types line exactly when both types have errors. */
  lemma FailIfErrorsSpec(v: Validator, dumps: Dicts.Dict<string, seq<string>> -> string)
    requires forall i :: 0 <= i < |Flatten(v.errors)| ==> Flatten(v.errors)[i].0.Some?
    ensures FailIfErrors(v, dumps).Err? <==> |Flatten(v.errors)| > 0
    ensures FailIfErrors(v, dumps).Err? ==> FailIfErrors(v, dumps).error.TrelloConfigException?
    ensures FailIfErrors(v, dumps).Err? ==>
      (Strs.StartsWith(FailIfErrors(v, dumps).error.message, "Multiple error types found!") <==>
       HasType(Flatten(v.errors), UndefinedConfig) && HasType(Flatten(v.errors), InvalidConfigValue))
  {
    var pairs := Flatten(v.errors);
    assert !Orphan(pairs, UndefinedConfig) && !Orphan(pairs, InvalidConfigValue);
    var undefined := FilterByType(v, UndefinedConfig).value;
    var invalid := FilterByType(v, InvalidConfigValue).value;
    var msg := FailureMessage(undefined, invalid, dumps);
    assert FailIfErrors(v, dumps) == if msg != "" then Err(TrelloConfigException(msg)) else Ok(());
    if |pairs| > 0 {
      assert pairs[0].1.kind == UndefinedConfig || pairs[0].1.kind == InvalidConfigValue;
      assert HasType(pairs, pairs[0].1.kind);
    }
  }
}

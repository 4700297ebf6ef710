/** The type checkers applied to configuration values, over the Python values a decoded JSON
  * config can hold: `None`, booleans, integers, strings and lists of these. */
module ObjectUtils {
  import opened Wrappers
  import Strs

  datatype Value = VNone | VBool(b: bool) | VInt(i: int) | VStr(s: string) | VList(items: seq<Value>)

  /** `repr(v)`: strings quoted, lists bracketed with their elements' reprs. */
  function Repr(v: Value): (r: string)
    ensures |r| > 0
    ensures v.VStr? ==> r[0] == '\'' && r[|r| - 1] == '\''
    decreases v
  {
    match v
    case VNone => "None"
    case VBool(b) => if b then "True" else "False"
    case VInt(i) => Strs.IntToString(i)
    case VStr(s) => "'" + s + "'"
    case VList(items) => "[" + Strs.Join(", ", seq(|items|, k requires 0 <= k < |items| => Repr(items[k]))) + "]"
  }

  /** `str(v)`: a string is itself, anything else its repr. */
  function PyStr(v: Value): (r: string)
    ensures r == "" <==> v == VStr("")
    ensures v.VStr? ==> r == v.s
  {
    if v.VStr? then v.s else Repr(v)
  }

  /** A list whose every element is a string. */
  predicate IsStrList(v: Value) {
    v.VList? && forall k :: 0 <= k < |v.items| ==> v.items[k].VStr?
  }

  /** The `for x in val` loop of `type_check_list_str` from position `k` on: the list back when no
    * element from `k` on is a non-string, else a ValueError. */
  function CheckStrItems(v: Value, k: nat): (r: Result<Value, Exc>)
    requires v.VList? && k <= |v.items|
    ensures r.Ok? <==> forall j :: k <= j < |v.items| ==> v.items[j].VStr?
    ensures r.Ok? ==> r.value == v
    ensures r.Err? ==> r.error == ValueError("")
    decreases |v.items| - k
  {
    if k == |v.items| then Ok(v)
    else if !v.items[k].VStr? then Err(ValueError(""))
    else CheckStrItems(v, k + 1)
  }

  /** `type_check_list_str`: the value back when it is a list of strings, else a ValueError. */
  function TypeCheckListStr(v: Value): (r: Result<Value, Exc>)
    ensures r.Ok? <==> IsStrList(v)
    ensures r.Ok? ==> r.value == v
    ensures r.Err? ==> r.error == ValueError("")
  {
    if !v.VList? then Err(ValueError("")) else CheckStrItems(v, 0)
  }

  /** `val in ("True", "False", False, True)`: Python's `==` also lets `1` and `0` through, since
    * `True == 1` and `False == 0`. */
  predicate PassesBoolGuard(v: Value) {
    match v
    case VStr(s) => s == "True" || s == "False"
    case VBool(_) => true
    case VInt(i) => i == 0 || i == 1
    case _ => false
  }

  /** The values the strict boolean checker is meant to accept. */
  predicate IsBoolLike(v: Value) {
    v == VStr("True") || v == VStr("False") || v.VBool?
  }

  /** The truth a boolean-like value denotes. */
  function Truth(v: Value): bool
    requires IsBoolLike(v)
  {
    v == VStr("True") || v == VBool(true)
  }

  /** `type_check_strict_bool` as written: after the guard every value is lower-cased, which only
    * strings support; a bool or an int raises AttributeError. */
  function StrictBoolAsWritten(v: Value): (r: Result<Value, Exc>)
    ensures !PassesBoolGuard(v) ==> r == Err(ValueError(""))
    ensures v == VStr("True") ==> r == Ok(VBool(true))
    ensures v == VStr("False") ==> r == Ok(VBool(false))
    ensures PassesBoolGuard(v) && !v.VStr? ==> r.Err? && r.error.AttributeError?
  {
    if !PassesBoolGuard(v) then Err(ValueError(""))
    else
      match v
      case VStr(s) =>
        LowerBoolWords();
        var stringToBool := map["true" := true, "false" := false];
        var lower := Strs.Lower(s);
        Ok(if lower in stringToBool then VBool(stringToBool[lower]) else VNone)
      case VBool(_) => Err(AttributeError("'bool' object has no attribute 'lower'"))
      case _ => Err(AttributeError("'int' object has no attribute 'lower'"))
  }

  lemma LowerBoolWords()
    ensures Strs.Lower("True") == "true" && Strs.Lower("False") == "false"
  {
    assert Strs.Lower("True") == [Strs.LowerChar('T')] + Strs.Lower("rue");
    assert Strs.Lower("False") == [Strs.LowerChar('F')] + Strs.Lower("alse");
  }

  /** The as-written checker rejects the very booleans its guard admits. */
  lemma StrictBoolAsWrittenRejectsBools()
    ensures PassesBoolGuard(VBool(true)) && StrictBoolAsWritten(VBool(true)).Err?
    ensures PassesBoolGuard(VBool(false)) && StrictBoolAsWritten(VBool(false)).Err?
  {
  }

  /** The strict boolean checker as intended: "True", "False", `True` and `False` give their truth,
    * anything else (including `1` and `0`) a ValueError. */
  function StrictBool(v: Value): (r: Result<Value, Exc>)
    ensures r.Ok? <==> IsBoolLike(v)
    ensures r.Ok? ==> r.value == VBool(Truth(v))
    ensures r.Err? ==> r.error == ValueError("")
  {
    match v
    case VBool(b) => Ok(v)
    case VStr(s) => if s == "True" then Ok(VBool(true)) else if s == "False" then Ok(VBool(false)) else Err(ValueError(""))
    case _ => Err(ValueError(""))
  }

  /** On strings the corrected checker does what the as-written one does. */
  lemma StrictBoolAgreesOnStrings(v: Value)
    requires v.VStr?
    ensures StrictBool(v) == StrictBoolAsWritten(v)
  {
  }

  /** A boolean written out with `str` and checked again is the same boolean, and checking a checked
    * value changes nothing. */
  lemma StrictBoolRoundTrip(b: bool, v: Value)
    ensures StrictBool(VStr(PyStr(VBool(b)))) == Ok(VBool(b))
    ensures StrictBool(v).Ok? ==> StrictBool(StrictBool(v).value) == StrictBool(v)
  {
  }

  /** `type_check_strict_str`: a string is returned as it is, anything else is a ValueError. */
  function StrictStr(v: Value): (r: Result<Value, Exc>)
    ensures r.Ok? <==> v.VStr?
    ensures r.Ok? ==> r.value == v
    ensures r.Err? ==> r.error == ValueError("")
  {
    if v.VStr? then Ok(VStr(PyStr(v))) else Err(ValueError(""))
  }

  /** `type_check_lenient_str`: never fails; a string is kept and anything else converted with `str`. */
  function LenientStr(v: Value): (r: Result<Value, Exc>)
    ensures r.Ok? && r.value.VStr?
    ensures v.VStr? ==> r.value == v
    ensures v.VBool? ==> r.value.s == (if v.b then "True" else "False")
  {
    Ok(VStr(PyStr(v)))
  }

  /** Where the strict checker accepts, the lenient one agrees with it; the lenient one is idempotent. */
  lemma StrictAndLenientAgree(v: Value)
    ensures StrictStr(v).Ok? ==> StrictStr(v) == LenientStr(v)
    ensures LenientStr(LenientStr(v).value) == LenientStr(v)
    ensures StrictStr(LenientStr(v).value) == LenientStr(v)
  {
  }
}

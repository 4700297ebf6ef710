/** The configuration keys and their checkers, reading the main and the secrets config dicts into
  * typed values while collecting validation errors, the required-config checks and loading both
  * configs. */
module TrelloConfig {
  import opened Wrappers
  import Seqs
  import Dicts
  import OU = ObjectUtils
  import CV = ConfigValidation

  datatype ConfigType = Global | Secret {
    function Val(): string {
      match this
      case Global => "global"
      case Secret => "secret"
    }
  }

  function FindType(ts: seq<ConfigType>, val: string): (r: Result<ConfigType, Exc>)
    ensures r.Ok? <==> exists i :: 0 <= i < |ts| && ts[i].Val() == val
    ensures r.Ok? ==> r.value.Val() == val
    ensures r.Err? ==> r.error == TrelloConfigException("Enum with value '" + val + "' not found!")
  {
    if |ts| == 0 then Err(TrelloConfigException("Enum with value '" + val + "' not found!"))
    else if ts[0].Val() == val then Ok(ts[0])
    else
      var r := FindType(ts[1..], val);
      assert forall i :: 1 <= i < |ts| ==> ts[i] == ts[1..][i - 1];
      r
  }

  /** `TrelloConfigType.by_value`: the type with that value, or an exception naming the value. */
  function ConfigTypeByValue(val: string): (r: Result<ConfigType, Exc>)
    ensures r.Ok? <==> exists t: ConfigType :: t.Val() == val
    ensures r.Ok? ==> r.value.Val() == val
    ensures r.Err? ==> r.error == TrelloConfigException("Enum with value '" + val + "' not found!")
  {
    TypesListed(val);
    FindType([Global, Secret], val)
  }

  lemma TypesListed(val: string)
    ensures (exists t: ConfigType :: t.Val() == val) <==> exists i :: 0 <= i < 2 && [Global, Secret][i].Val() == val
  {
    if exists t: ConfigType :: t.Val() == val {
      var t: ConfigType :| t.Val() == val;
      var i := if t == Global then 0 else 1;
      assert [Global, Secret][i] == t;
    }
  }

  /** Looking up a type by its own value gives the type back. */
  lemma ConfigTypeRoundTrip(t: ConfigType)
    ensures ConfigTypeByValue(t.Val()) == Ok(t)
  {
  }

  /** The checker a config's value goes through; the date checker is not part of this model. */
  datatype TypeChecker = ListStrCheck | StrCheck | BoolCheck

  /** `do_type_check`, with the boolean checker corrected so that a JSON boolean is accepted as it is
    * (see `DoTypeCheckAsWritten` for the checker as written). */
  function DoTypeCheck(tc: TypeChecker, v: OU.Value): (r: Result<OU.Value, Exc>)
    ensures r.Err? ==> r.error == ValueError("")
    ensures tc == StrCheck ==> r.Ok? && r.value.VStr?
    ensures tc == BoolCheck ==> (r.Ok? <==> OU.IsBoolLike(v))
    ensures tc == ListStrCheck ==> (r.Ok? <==> OU.IsStrList(v))
  {
    match tc
    case ListStrCheck => OU.TypeCheckListStr(v)
    case StrCheck => OU.LenientStr(v)
    case BoolCheck => OU.StrictBool(v)
  }

  /** `do_type_check` with `BOOL` bound to the strict boolean checker as written: a JSON boolean, or
    * `1` or `0`, gets through its guard and then raises AttributeError. */
  function DoTypeCheckAsWritten(tc: TypeChecker, v: OU.Value): (r: Result<OU.Value, Exc>)
    ensures tc == BoolCheck && OU.PassesBoolGuard(v) && !v.VStr? ==> r.Err? && r.error.AttributeError?
    ensures !(tc == BoolCheck && OU.PassesBoolGuard(v) && !v.VStr?) ==> r == DoTypeCheck(tc, v)
  {
    match tc
    case BoolCheck => OU.StrictBoolAsWritten(v)
    case _ => DoTypeCheck(tc, v)
  }

  /** As written, a boolean `serve_attachments` fails its type check with an exception that is neither
    * the ValueError `validate_type_and_value` reports nor the KeyError `_read_config` turns into a
    * config exception, so it leaves `ConfigLoader.load`; the corrected check accepts it. */
  lemma BoolConfigEscapesAsWritten(b: bool)
    ensures var r := DoTypeCheckAsWritten(ServeAttachments.Checker(), OU.VBool(b));
      r.Err? && !r.error.ValueError? && !r.error.KeyError?
    ensures DoTypeCheck(ServeAttachments.Checker(), OU.VBool(b)) == Ok(OU.VBool(b))
  {
  }

  /** The members of `TrelloCfg`. */
  datatype Cfg = ApiKey | Token | SecretKey | ServeAttachments {
    function Name(): string {
      match this
      case ApiKey => "TRELLO_API_KEY"
      case Token => "TRELLO_TOKEN"
      case SecretKey => "TRELLO_SECRET"
      case ServeAttachments => "SERVE_ATTACHMENTS"
    }

    /** The member as `str` shows it. */
    function Str(): string {
      "TrelloCfg." + Name()
    }

    function Type(): ConfigType {
      if this == ServeAttachments then Global else Secret
    }

    function Key(): string {
      match this
      case ApiKey => "api_key"
      case Token => "token"
      case SecretKey => "secret"
      case ServeAttachments => "serve_attachments"
    }

    function Checker(): TypeChecker {
      if this == ServeAttachments then BoolCheck else StrCheck
    }
  }

  /** The members in declaration order. */
  const AllCfgs: seq<Cfg> := [ApiKey, Token, SecretKey, ServeAttachments]

  /** A member's position in declaration order. */
  function Ordinal(c: Cfg): (r: nat)
    ensures r < |AllCfgs| && AllCfgs[r] == c
  {
    match c
    case ApiKey => 0
    case Token => 1
    case SecretKey => 2
    case ServeAttachments => 3
  }

  lemma StrInjective(a: Cfg, b: Cfg)
    ensures a.Str() == b.Str() ==> a == b
  {
    if a.Str() == b.Str() {
      assert a.Str()[10..] == a.Name() && b.Str()[10..] == b.Name();
    }
  }

  /** The first of `cs` with that key, or an exception naming the key. */
  function FindKey(cs: seq<Cfg>, key: string): (r: Result<Cfg, Exc>)
    ensures r.Ok? <==> exists i :: 0 <= i < |cs| && cs[i].Key() == key
    ensures r.Ok? ==> r.value.Key() == key
    ensures r.Err? ==> r.error == TrelloConfigException("Unknown configuration key: " + key)
  {
    if |cs| == 0 then Err(TrelloConfigException("Unknown configuration key: " + key))
    else if cs[0].Key() == key then Ok(cs[0])
    else
      var r := FindKey(cs[1..], key);
      assert forall i :: 1 <= i < |cs| ==> cs[i] == cs[1..][i - 1];
      r
  }

  /** `lookup_by_key`: the member with that key, or an exception naming the key. No two members
    * share a key, so the `{cfg.key: cfg}` dict the source builds holds every member. */
  function LookupByKey(key: string): (r: Result<Cfg, Exc>)
    ensures r.Ok? <==> exists c: Cfg :: c.Key() == key
    ensures r.Ok? ==> r.value.Key() == key
    ensures r.Err? ==> r.error == TrelloConfigException("Unknown configuration key: " + key)
  {
    CfgsListed(key);
    FindKey(AllCfgs, key)
  }

  lemma CfgsListed(key: string)
    ensures (exists c: Cfg :: c.Key() == key) <==> exists i :: 0 <= i < |AllCfgs| && AllCfgs[i].Key() == key
  {
    if exists c: Cfg :: c.Key() == key {
      var c: Cfg :| c.Key() == key;
      assert AllCfgs[Ordinal(c)] == c;
    }
  }

  /** Looking a member up by its own key gives it back. */
  lemma LookupRoundTrip(c: Cfg)
    ensures LookupByKey(c.Key()) == Ok(c)
  {
  }

  /** The lookup with the exception caught: `None` for an unknown key. */
  function LookupOpt(key: string): (r: Option<Cfg>)
    ensures forall c: Cfg :: r == Some(c) <==> c.Key() == key
  {
    match LookupByKey(key)
    case Ok(c) => Some(c)
    case Err(_) => None
  }

  /** The members from position `k` on that `keep` selects, in declaration order. */
  function SelectFrom(keep: Cfg -> bool, k: nat): (r: seq<Cfg>)
    requires k <= |AllCfgs|
    ensures forall c :: c in r <==> keep(c) && Ordinal(c) >= k
    ensures forall i, j :: 0 <= i < j < |r| ==> Ordinal(r[i]) < Ordinal(r[j])
    ensures forall i :: 0 <= i < |r| ==> Ordinal(r[i]) >= k
    decreases |AllCfgs| - k
  {
    if k == |AllCfgs| then []
    else
      var rest := SelectFrom(keep, k + 1);
      assert Ordinal(AllCfgs[k]) == k;
      if keep(AllCfgs[k]) then [AllCfgs[k]] + rest else rest
  }

  /** `_filter_by_cfg_type`: exactly the members of that type, in declaration order. */
  function FilterByCfgType(t: ConfigType): (r: seq<Cfg>)
    ensures forall c :: c in r <==> c.Type() == t
    ensures forall i, j :: 0 <= i < j < |r| ==> Ordinal(r[i]) < Ordinal(r[j])
  {
    SelectFrom((c: Cfg) => c.Type() == t, 0)
  }

  function GlobalConfigs(): seq<Cfg> {
    FilterByCfgType(Global)
  }

  function SecretConfigs(): seq<Cfg> {
    FilterByCfgType(Secret)
  }

  /** Every member is global or secret and not both; serving attachments is the one global config. */
  lemma GlobalAndSecretPartition(c: Cfg)
    ensures (c in GlobalConfigs()) != (c in SecretConfigs())
    ensures c in GlobalConfigs() <==> c == ServeAttachments
  {
  }

  /** The error reported for a value that fails its member's type check. */
  function InvalidValueError(c: Cfg, value: OU.Value): CV.ValidationError {
    CV.CreateInvalidConfigValue("Invalid config value for config: " + c.Str() + ", type check failed", c.Str(), OU.PyStr(value), None)
  }

  /** `validate_type_and_value`: an unknown config gives `None` and reports nothing; a value failing
    * its type check gives `None` and reports one error; otherwise the checked value. No member has a
    * value checker. */
  function ValidateTypeAndValue(cfg: Option<Cfg>, value: OU.Value, v: CV.Validator): (r: (Option<OU.Value>, CV.Validator))
    ensures cfg.None? ==> r == (None, v)
    ensures cfg.Some? && DoTypeCheck(cfg.value.Checker(), value).Ok? ==> r == (Some(DoTypeCheck(cfg.value.Checker(), value).value), v)
    ensures cfg.Some? && DoTypeCheck(cfg.value.Checker(), value).Err? ==> r == (None, CV.ReportError(v, InvalidValueError(cfg.value, value)))
  {
    match cfg
    case None => (None, v)
    case Some(c) =>
      match DoTypeCheck(c.Checker(), value)
      case Ok(x) => (Some(x), v)
      case Err(_) => (None, CV.ReportError(v, InvalidValueError(c, value)))
  }

  /** The value stored for an entry of the main config. */
  function Checked(cfg: Option<Cfg>, value: OU.Value): Option<OU.Value> {
    match cfg
    case None => None
    case Some(c) => if DoTypeCheck(c.Checker(), value).Ok? then Some(DoTypeCheck(c.Checker(), value).value) else None
  }

  /** The errors an entry reports: one when its key is known and its value fails the check. */
  function TypeErrors(key: string, value: OU.Value): seq<CV.ValidationError> {
    match LookupOpt(key)
    case None => []
    case Some(c) => if DoTypeCheck(c.Checker(), value).Err? then [InvalidValueError(c, value)] else []
  }

  /** The errors of all entries, in dict order. */
  function Errors(dic: Dicts.Dict<string, OU.Value>): seq<CV.ValidationError>
    decreases |dic|
  {
    if |dic| == 0 then []
    else Errors(dic[..|dic| - 1]) + TypeErrors(dic[|dic| - 1].0, dic[|dic| - 1].1)
  }

  /** Entry `i` has the key of `c`. */
  predicate HasKey(dic: Dicts.Dict<string, OU.Value>, i: int, c: Cfg) {
    0 <= i < |dic| && dic[i].0 == c.Key()
  }

  /** Every entry with a known key passes its member's check. */
  ghost predicate AllKnownPass(dic: Dicts.Dict<string, OU.Value>) {
    forall i, c :: HasKey(dic, i, c) ==> DoTypeCheck(c.Checker(), dic[i].1).Ok?
  }

  /** `e` is the error of some known entry failing its check. */
  ghost predicate ErrorOfEntry(dic: Dicts.Dict<string, OU.Value>, e: CV.ValidationError) {
    exists i, c :: HasKey(dic, i, c) && DoTypeCheck(c.Checker(), dic[i].1).Err? && e == InvalidValueError(c, dic[i].1)
  }

  /** An entry reports nothing exactly when its key is unknown or its value passes the check. */
  lemma TypeErrorsNone(key: string, value: OU.Value)
    ensures |TypeErrors(key, value)| == 0 <==> forall c: Cfg :: c.Key() == key ==> DoTypeCheck(c.Checker(), value).Ok?
  {
  }

  /** Every known entry of a passing dict passes, and so does every known entry of its prefix. */
  lemma KnownPassShrink(dic: Dicts.Dict<string, OU.Value>)
    requires |dic| > 0 && AllKnownPass(dic)
    ensures AllKnownPass(dic[..|dic| - 1])
    ensures forall c: Cfg :: c.Key() == dic[|dic| - 1].0 ==> DoTypeCheck(c.Checker(), dic[|dic| - 1].1).Ok?
  {
    var pre := dic[..|dic| - 1];
    forall i, c | HasKey(pre, i, c) ensures DoTypeCheck(c.Checker(), pre[i].1).Ok? {
      assert pre[i] == dic[i] && HasKey(dic, i, c);
    }
    forall c: Cfg | c.Key() == dic[|dic| - 1].0 ensures DoTypeCheck(c.Checker(), dic[|dic| - 1].1).Ok? {
      assert HasKey(dic, |dic| - 1, c);
    }
  }

  /** A passing prefix and a passing last entry make a passing dict. */
  lemma KnownPassGrow(dic: Dicts.Dict<string, OU.Value>)
    requires |dic| > 0 && AllKnownPass(dic[..|dic| - 1])
    requires forall c: Cfg :: c.Key() == dic[|dic| - 1].0 ==> DoTypeCheck(c.Checker(), dic[|dic| - 1].1).Ok?
    ensures AllKnownPass(dic)
  {
    var pre := dic[..|dic| - 1];
    forall i, c | HasKey(dic, i, c) ensures DoTypeCheck(c.Checker(), dic[i].1).Ok? {
      if i < |dic| - 1 {
        assert pre[i] == dic[i] && HasKey(pre, i, c);
      }
    }
  }

  /** A dict passes when its entries but the last do and the last reports nothing. */
  lemma KnownPassStep(dic: Dicts.Dict<string, OU.Value>)
    requires |dic| > 0
    ensures AllKnownPass(dic) <==> AllKnownPass(dic[..|dic| - 1]) && |TypeErrors(dic[|dic| - 1].0, dic[|dic| - 1].1)| == 0
  {
    TypeErrorsNone(dic[|dic| - 1].0, dic[|dic| - 1].1);
    if AllKnownPass(dic) {
      KnownPassShrink(dic);
    }
    if AllKnownPass(dic[..|dic| - 1]) && |TypeErrors(dic[|dic| - 1].0, dic[|dic| - 1].1)| == 0 {
      KnownPassGrow(dic);
    }
  }

  /** No errors exactly when every known entry passes its check. */
  lemma {:induction false} ErrorsNone(dic: Dicts.Dict<string, OU.Value>)
    ensures |Errors(dic)| == 0 <==> AllKnownPass(dic)
    decreases |dic|
  {
    if |dic| > 0 {
      ErrorsNone(dic[..|dic| - 1]);
      KnownPassStep(dic);
    }
  }

  /** An error of a prefix is an error of the whole dict. */
  lemma ErrorOfPrefix(dic: Dicts.Dict<string, OU.Value>, n: nat, e: CV.ValidationError)
    requires n <= |dic| && ErrorOfEntry(dic[..n], e)
    ensures ErrorOfEntry(dic, e)
  {
    var i, c :| HasKey(dic[..n], i, c) && DoTypeCheck(c.Checker(), dic[..n][i].1).Err? && e == InvalidValueError(c, dic[..n][i].1);
    assert dic[..n][i] == dic[i] && HasKey(dic, i, c);
  }

  /** An error the last entry reports is an error of the dict. */
  lemma ErrorOfLast(dic: Dicts.Dict<string, OU.Value>, e: CV.ValidationError)
    requires |dic| > 0 && e in TypeErrors(dic[|dic| - 1].0, dic[|dic| - 1].1)
    ensures ErrorOfEntry(dic, e)
  {
    var c := LookupOpt(dic[|dic| - 1].0).value;
    assert HasKey(dic, |dic| - 1, c);
  }

  /** Each error belongs to a failing known entry. */
  lemma {:induction false} ErrorsBelong(dic: Dicts.Dict<string, OU.Value>)
    ensures forall k :: 0 <= k < |Errors(dic)| ==> ErrorOfEntry(dic, Errors(dic)[k])
    decreases |dic|
  {
    if |dic| > 0 {
      var n := |dic| - 1;
      var pre := dic[..n];
      ErrorsBelong(pre);
      var es := Errors(dic);
      var last := TypeErrors(dic[n].0, dic[n].1);
      assert es == Errors(pre) + last;
      forall k | 0 <= k < |es| ensures ErrorOfEntry(dic, es[k]) {
        if k < |Errors(pre)| {
          ErrorOfPrefix(dic, n, Errors(pre)[k]);
        } else {
          assert es[k] == last[k - |Errors(pre)|];
          ErrorOfLast(dic, es[k]);
        }
      }
    }
  }

  /** No errors exactly when every known entry passes its check; each error belongs to a failing
    * known entry. */
  lemma ErrorsSpec(dic: Dicts.Dict<string, OU.Value>)
    ensures |Errors(dic)| == 0 <==> AllKnownPass(dic)
    ensures forall k :: 0 <= k < |Errors(dic)| ==> ErrorOfEntry(dic, Errors(dic)[k])
  {
    ErrorsNone(dic);
    ErrorsBelong(dic);
  }

  /** `Config._read_configs`: every entry is stored under its member, or under `None` when its key is
    * unknown, with its checked value; failures are reported as they are met. */
  function ReadMainConfigs(dic: Dicts.Dict<string, OU.Value>, v: CV.Validator)
    : (r: (Dicts.Dict<Option<Cfg>, Option<OU.Value>>, CV.Validator))
    ensures Dicts.DistinctKeys(r.0) && |r.0| <= |dic| && (|r.0| == 0 <==> |dic| == 0)
    ensures forall key :: key in Dicts.Keys(dic) ==> LookupOpt(key) in Dicts.Keys(r.0)
    ensures r.1.context == v.context && r.1.newErrors == v.newErrors
    decreases |dic|
  {
    if |dic| == 0 then ([], v)
    else
      var n := |dic| - 1;
      assert Dicts.Keys(dic) == Dicts.Keys(dic[..n]) + [dic[n].0];
      ReadMainEntry(ReadMainConfigs(dic[..n], v), dic[n].0, dic[n].1)
  }

  /** One pass of the loop of `Config._read_configs`: the entry is stored under its member, or `None`,
    * and every key stored before stays. */
  function ReadMainEntry(acc: (Dicts.Dict<Option<Cfg>, Option<OU.Value>>, CV.Validator), key: string, value: OU.Value)
    : (r: (Dicts.Dict<Option<Cfg>, Option<OU.Value>>, CV.Validator))
    requires Dicts.DistinctKeys(acc.0)
    ensures Dicts.DistinctKeys(r.0) && |acc.0| <= |r.0| <= |acc.0| + 1
    ensures LookupOpt(key) in Dicts.Keys(r.0) && forall k :: k in Dicts.Keys(acc.0) ==> k in Dicts.Keys(r.0)
    ensures r.1.context == acc.1.context && r.1.newErrors == acc.1.newErrors
  {
    var cfg := LookupOpt(key);
    var (x, v) := ValidateTypeAndValue(cfg, value, acc.1);
    (Dicts.Put(acc.0, cfg, x), v)
  }

  function MainPairs(dic: Dicts.Dict<string, OU.Value>): (r: seq<(Option<Cfg>, Option<OU.Value>)>)
    ensures |r| == |dic| && forall i :: 0 <= i < |dic| ==> r[i] == (LookupOpt(dic[i].0), Checked(LookupOpt(dic[i].0), dic[i].1))
  {
    seq(|dic|, i requires 0 <= i < |dic| => (LookupOpt(dic[i].0), Checked(LookupOpt(dic[i].0), dic[i].1)))
  }

  /** Reporting one run of errors and then another is reporting both runs. */
  lemma {:induction false} ReportAllConcat(v: CV.Validator, a: seq<CV.ValidationError>, b: seq<CV.ValidationError>)
    ensures CV.ReportAll(v, a + b) == CV.ReportAll(CV.ReportAll(v, a), b)
    decreases |a|
  {
    if |a| > 0 {
      ReportAllConcat(CV.ReportError(v, a[0]), a[1..], b);
      Seqs.TailOfConcat(a, b);
    } else {
      Seqs.ConcatEmpty(b);
    }
  }

  /** The loop stores the pairs of the entries into a dict and reports the entries' errors in order. */
  lemma {:induction false} ReadMainSplit(dic: Dicts.Dict<string, OU.Value>, v: CV.Validator)
    ensures ReadMainConfigs(dic, v).0 == Dicts.FromPairs(MainPairs(dic))
    ensures ReadMainConfigs(dic, v).1 == CV.ReportAll(v, Errors(dic))
    decreases |dic|
  {
    if |dic| > 0 {
      var n := |dic| - 1;
      var pre := dic[..n];
      ReadMainSplit(pre, v);
      assert MainPairs(dic)[..n] == MainPairs(pre);
      ReportAllConcat(v, Errors(pre), TypeErrors(dic[n].0, dic[n].1));
      var v1 := CV.ReportAll(v, Errors(pre));
      match LookupOpt(dic[n].0)
      case None =>
      case Some(c) =>
        if DoTypeCheck(c.Checker(), dic[n].1).Err? {
          var e := InvalidValueError(c, dic[n].1);
          assert CV.ReportAll(v1, [e]) == CV.ReportAll(CV.ReportError(v1, e), []);
        }
    }
  }

  /** The main config holds a member exactly when the dict has its key, and an unknown key shows as a
    * `None` entry. */
  lemma MainConfigKeys(dic: Dicts.Dict<string, OU.Value>, v: CV.Validator)
    ensures Dicts.DistinctKeys(ReadMainConfigs(dic, v).0)
    ensures forall c: Cfg :: Some(c) in Dicts.Keys(ReadMainConfigs(dic, v).0) <==> exists i :: HasKey(dic, i, c)
    ensures None in Dicts.Keys(ReadMainConfigs(dic, v).0) <==> exists i :: 0 <= i < |dic| && LookupOpt(dic[i].0).None?
  {
    ReadMainSplit(dic, v);
    var ps := MainPairs(dic);
    Dicts.FromPairsDistinct(ps);
    forall c: Cfg ensures Some(c) in Dicts.Keys(Dicts.FromPairs(ps)) <==> exists i :: HasKey(dic, i, c) {
      Dicts.FromPairsHasKey(ps, Some(c));
      MainPairsKey(dic, c);
    }
    Dicts.FromPairsHasKey(ps, None);
    MainPairsNone(dic);
  }

  /** Some pair is keyed by `None` exactly when some entry has an unknown key. */
  lemma MainPairsNone(dic: Dicts.Dict<string, OU.Value>)
    ensures (exists i :: 0 <= i < |MainPairs(dic)| && MainPairs(dic)[i].0 == None) <==>
      exists i :: 0 <= i < |dic| && LookupOpt(dic[i].0).None?
  {
    var ps := MainPairs(dic);
    if exists i :: 0 <= i < |dic| && LookupOpt(dic[i].0).None? {
      var i :| 0 <= i < |dic| && LookupOpt(dic[i].0).None?;
      assert ps[i].0 == None;
    }
  }

  /** A member keys some pair exactly when some entry has its key. */
  lemma MainPairsKey(dic: Dicts.Dict<string, OU.Value>, c: Cfg)
    ensures (exists i :: 0 <= i < |MainPairs(dic)| && MainPairs(dic)[i].0 == Some(c)) <==> exists i :: HasKey(dic, i, c)
  {
    var ps := MainPairs(dic);
    if exists i :: HasKey(dic, i, c) {
      var i :| HasKey(dic, i, c);
      assert ps[i].0 == Some(c);
    }
    if exists i :: 0 <= i < |ps| && ps[i].0 == Some(c) {
      var i :| 0 <= i < |ps| && ps[i].0 == Some(c);
      assert HasKey(dic, i, c);
    }
  }

  /** With distinct keys in the dict, the pair of a known member's entry is the only one keyed by it. */
  lemma MainPairsUnique(dic: Dicts.Dict<string, OU.Value>, i: nat, c: Cfg)
    requires Dicts.DistinctKeys(dic) && HasKey(dic, i, c)
    ensures var ps := MainPairs(dic);
      i < |ps| && ps[i] == (Some(c), Checked(Some(c), dic[i].1))
      && forall j :: 0 <= j < |ps| && ps[j].0 == ps[i].0 ==> j == i
  {
    var ps := MainPairs(dic);
    forall j | 0 <= j < |ps| && ps[j].0 == ps[i].0 ensures j == i {
      assert dic[j].0 == c.Key();
    }
  }

  /** With distinct keys in the dict, each known member holds its entry's checked value. */
  lemma MainConfigValues(dic: Dicts.Dict<string, OU.Value>, v: CV.Validator, i: nat, c: Cfg)
    requires Dicts.DistinctKeys(dic) && HasKey(dic, i, c)
    ensures Dicts.Get(ReadMainConfigs(dic, v).0, Some(c)) == Some(Checked(Some(c), dic[i].1))
  {
    ReadMainSplit(dic, v);
    MainPairsUnique(dic, i, c);
    Dicts.FromPairsUniqueKey(MainPairs(dic), i);
  }

  /** `Config.get`: the stored value of a defined config, else an exception naming it. */
  function ConfigGet(configs: Dicts.Dict<Option<Cfg>, Option<OU.Value>>, c: Cfg): (r: Result<Option<OU.Value>, Exc>)
    ensures r.Ok? <==> Some(c) in Dicts.Keys(configs)
    ensures r.Ok? ==> Dicts.Get(configs, Some(c)) == Some(r.value)
    ensures r.Err? ==> r.error == TrelloConfigException("Undefined config: " + c.Str())
  {
    match Dicts.Get(configs, Some(c))
    case None => Err(TrelloConfigException("Undefined config: " + c.Str()))
    case Some(x) => Ok(x)
  }

  /** Reading the main config and then getting a member gives the checked value of its entry, and an
    * exception when the dict lacks its key. */
  lemma ConfigGetAfterRead(dic: Dicts.Dict<string, OU.Value>, v: CV.Validator, c: Cfg)
    requires Dicts.DistinctKeys(dic)
    ensures (exists i :: HasKey(dic, i, c)) <==> ConfigGet(ReadMainConfigs(dic, v).0, c).Ok?
    ensures forall i :: HasKey(dic, i, c) ==> ConfigGet(ReadMainConfigs(dic, v).0, c) == Ok(Checked(Some(c), dic[i].1))
  {
    MainConfigKeys(dic, v);
    forall i | HasKey(dic, i, c) ensures ConfigGet(ReadMainConfigs(dic, v).0, c) == Ok(Checked(Some(c), dic[i].1)) {
      MainConfigValues(dic, v, i, c);
    }
  }

  /** `Secrets._read_configs`: unknown keys are skipped, values failing their check are left out and
    * reported, the rest stored under their member. */
  function ReadSecrets(dic: Dicts.Dict<string, OU.Value>, v: CV.Validator): (r: (Dicts.Dict<Cfg, OU.Value>, CV.Validator))
    ensures Dicts.DistinctKeys(r.0) && |r.0| <= |dic|
    ensures forall c :: c in Dicts.Keys(r.0) ==> c.Key() in Dicts.Keys(dic)
    ensures r.1.context == v.context && r.1.newErrors == v.newErrors
    decreases |dic|
  {
    if |dic| == 0 then ([], v)
    else
      var n := |dic| - 1;
      var (res, v1) := ReadSecrets(dic[..n], v);
      assert Dicts.Keys(dic[..n]) == Dicts.Keys(dic)[..n];
      match LookupOpt(dic[n].0)
      case None => (res, v1)
      case Some(c) =>
        match DoTypeCheck(c.Checker(), dic[n].1)
        case Ok(x) => (Dicts.Put(res, c, x), v1)
        case Err(_) => (res, CV.ReportError(v1, InvalidValueError(c, dic[n].1)))
  }

  /** The pair an entry stores among the secrets, if any. */
  function PassPair(key: string, value: OU.Value): seq<(Cfg, OU.Value)> {
    match LookupOpt(key)
    case None => []
    case Some(c) => if DoTypeCheck(c.Checker(), value).Ok? then [(c, DoTypeCheck(c.Checker(), value).value)] else []
  }

  function SecretPairs(dic: Dicts.Dict<string, OU.Value>): seq<(Cfg, OU.Value)>
    decreases |dic|
  {
    if |dic| == 0 then [] else SecretPairs(dic[..|dic| - 1]) + PassPair(dic[|dic| - 1].0, dic[|dic| - 1].1)
  }

  /** Entry `i` has the key of `c` and passes its check. */
  predicate Passes(dic: Dicts.Dict<string, OU.Value>, i: int, c: Cfg) {
    HasKey(dic, i, c) && DoTypeCheck(c.Checker(), dic[i].1).Ok?
  }

  /** The secrets loop stores the passing entries' pairs and reports the failing entries in order. */
  lemma ReadSecretsSplit(dic: Dicts.Dict<string, OU.Value>, v: CV.Validator)
    ensures ReadSecrets(dic, v).0 == Dicts.FromPairs(SecretPairs(dic))
    ensures ReadSecrets(dic, v).1 == CV.ReportAll(v, Errors(dic))
  {
    ReadSecretsPairs(dic, v);
    ReadSecretsErrors(dic, v);
  }

  lemma {:induction false} ReadSecretsPairs(dic: Dicts.Dict<string, OU.Value>, v: CV.Validator)
    ensures ReadSecrets(dic, v).0 == Dicts.FromPairs(SecretPairs(dic))
    decreases |dic|
  {
    if |dic| > 0 {
      var n := |dic| - 1;
      var pre := dic[..n];
      ReadSecretsPairs(pre, v);
      var pp := PassPair(dic[n].0, dic[n].1);
      assert SecretPairs(dic) == SecretPairs(pre) + pp;
      if |pp| == 0 {
        Seqs.ConcatEmpty(SecretPairs(pre));
      } else {
        assert pp == [pp[0]];
        Dicts.FromPairsSnoc(SecretPairs(pre), pp[0]);
      }
    }
  }

  lemma {:induction false} ReadSecretsErrors(dic: Dicts.Dict<string, OU.Value>, v: CV.Validator)
    ensures ReadSecrets(dic, v).1 == CV.ReportAll(v, Errors(dic))
    decreases |dic|
  {
    if |dic| > 0 {
      var n := |dic| - 1;
      var pre := dic[..n];
      ReadSecretsErrors(pre, v);
      ReportAllConcat(v, Errors(pre), TypeErrors(dic[n].0, dic[n].1));
      var v1 := CV.ReportAll(v, Errors(pre));
      match LookupOpt(dic[n].0)
      case None =>
      case Some(c) =>
        if DoTypeCheck(c.Checker(), dic[n].1).Err? {
          var e := InvalidValueError(c, dic[n].1);
          assert CV.ReportAll(v1, [e]) == CV.ReportAll(CV.ReportError(v1, e), []);
        }
    }
  }

  /** A member is paired with a value among the secrets exactly when some entry with its key passes
    * the check with that value. */
  lemma SecretPairsSpec(dic: Dicts.Dict<string, OU.Value>)
    ensures forall c, x :: (c, x) in SecretPairs(dic) <==> exists i :: Passes(dic, i, c) && DoTypeCheck(c.Checker(), dic[i].1).value == x
  {
    SecretPairsSound(dic);
    SecretPairsComplete(dic);
  }

  /** The pair an entry stores names the member with its key and that member's checked value. */
  lemma PassPairSound(key: string, value: OU.Value, c: Cfg, x: OU.Value)
    requires (c, x) in PassPair(key, value)
    ensures c.Key() == key && DoTypeCheck(c.Checker(), value).Ok? && DoTypeCheck(c.Checker(), value).value == x
  {
  }

  /** An entry with a member's key that passes the check stores exactly that member's pair. */
  lemma PassPairComplete(key: string, value: OU.Value, c: Cfg)
    requires c.Key() == key && DoTypeCheck(c.Checker(), value).Ok?
    ensures PassPair(key, value) == [(c, DoTypeCheck(c.Checker(), value).value)]
  {
    assert LookupOpt(key) == Some(c);
  }

  /** Passing is a property of the entry: a prefix and the whole dict agree on their common entries. */
  lemma PassesInPrefix(dic: Dicts.Dict<string, OU.Value>, n: nat, i: int, c: Cfg)
    requires n <= |dic| && 0 <= i < n
    ensures dic[..n][i] == dic[i]
    ensures Passes(dic[..n], i, c) <==> Passes(dic, i, c)
  {
  }

  /** Every stored pair comes from a passing entry. */
  lemma {:induction false} SecretPairsSound(dic: Dicts.Dict<string, OU.Value>)
    ensures forall c, x :: (c, x) in SecretPairs(dic) ==> exists i :: Passes(dic, i, c) && DoTypeCheck(c.Checker(), dic[i].1).value == x
    decreases |dic|
  {
    if |dic| > 0 {
      var n := |dic| - 1;
      var pre := dic[..n];
      SecretPairsSound(pre);
      assert SecretPairs(dic) == SecretPairs(pre) + PassPair(dic[n].0, dic[n].1);
      forall c, x | (c, x) in SecretPairs(dic)
        ensures exists i :: Passes(dic, i, c) && DoTypeCheck(c.Checker(), dic[i].1).value == x
      {
        if (c, x) in SecretPairs(pre) {
          var i :| Passes(pre, i, c) && DoTypeCheck(c.Checker(), pre[i].1).value == x;
          PassesInPrefix(dic, n, i, c);
        } else {
          PassPairSound(dic[n].0, dic[n].1, c, x);
          assert Passes(dic, n, c);
        }
      }
    }
  }

  /** Every passing entry's pair is stored. */
  lemma {:induction false} SecretPairsComplete(dic: Dicts.Dict<string, OU.Value>)
    ensures forall c, i :: Passes(dic, i, c) ==> (c, DoTypeCheck(c.Checker(), dic[i].1).value) in SecretPairs(dic)
    decreases |dic|
  {
    if |dic| > 0 {
      var n := |dic| - 1;
      var pre := dic[..n];
      SecretPairsComplete(pre);
      var last := PassPair(dic[n].0, dic[n].1);
      assert SecretPairs(dic) == SecretPairs(pre) + last;
      forall c, i | Passes(dic, i, c) ensures (c, DoTypeCheck(c.Checker(), dic[i].1).value) in SecretPairs(dic) {
        if i < n {
          PassesInPrefix(dic, n, i, c);
          assert (c, DoTypeCheck(c.Checker(), pre[i].1).value) in SecretPairs(pre);
        } else {
          PassPairComplete(dic[n].0, dic[n].1, c);
          assert last[0] == (c, DoTypeCheck(c.Checker(), dic[i].1).value);
        }
      }
    }
  }

  /** The secrets hold a member exactly when some entry with its key passes the check. */
  lemma SecretsKeys(dic: Dicts.Dict<string, OU.Value>, v: CV.Validator)
    ensures Dicts.DistinctKeys(ReadSecrets(dic, v).0)
    ensures forall c: Cfg :: c in Dicts.Keys(ReadSecrets(dic, v).0) <==> exists i :: Passes(dic, i, c)
  {
    ReadSecretsSplit(dic, v);
    FromSecretPairsKeys(dic);
  }

  /** The dict built from the passing entries' pairs has a member exactly when some entry with its key
    * passes the check. */
  lemma FromSecretPairsKeys(dic: Dicts.Dict<string, OU.Value>)
    ensures Dicts.DistinctKeys(Dicts.FromPairs(SecretPairs(dic)))
    ensures forall c: Cfg :: c in Dicts.Keys(Dicts.FromPairs(SecretPairs(dic))) <==> exists i :: Passes(dic, i, c)
  {
    SecretPairsSpec(dic);
    var ps := SecretPairs(dic);
    Dicts.FromPairsKeys(ps);
    forall c: Cfg ensures c in Dicts.Keys(Dicts.FromPairs(ps)) <==> exists i :: Passes(dic, i, c) {
      if exists i :: Passes(dic, i, c) {
        var i :| Passes(dic, i, c);
        var x := DoTypeCheck(c.Checker(), dic[i].1).value;
        assert (c, x) in ps;
        var j :| 0 <= j < |ps| && ps[j] == (c, x);
        assert ps[j].0 == c;
      }
      if c in Dicts.Keys(Dicts.FromPairs(ps)) {
        var j :| 0 <= j < |ps| && ps[j].0 == c;
        assert (c, ps[j].1) in ps;
      }
    }
  }

  /** `Secrets.get`: the stored value of a defined secret, else an exception naming it. */
  function SecretsGet(secrets: Dicts.Dict<Cfg, OU.Value>, c: Cfg): (r: Result<OU.Value, Exc>)
    ensures r.Ok? <==> c in Dicts.Keys(secrets)
    ensures r.Ok? ==> Dicts.Get(secrets, c) == Some(r.value)
    ensures r.Err? ==> r.error == TrelloConfigException("Undefined config: " + c.Str())
  {
    match Dicts.Get(secrets, c)
    case None => Err(TrelloConfigException("Undefined config: " + c.Str()))
    case Some(x) => Ok(x)
  }

  /** The error reported for a required config that is not defined. */
  function UndefinedError(c: Cfg): CV.ValidationError {
    CV.CreateUndefinedConfigError("Undefined value for config: " + c.Str(), None, c.Str(), None)
  }

  function UndefinedErrors(cs: seq<Cfg>): (r: seq<CV.ValidationError>)
    ensures |r| == |cs| && forall i :: 0 <= i < |cs| ==> r[i] == UndefinedError(cs[i])
  {
    seq(|cs|, i requires 0 <= i < |cs| => UndefinedError(cs[i]))
  }

  /** The required configs missing from `actual`, in declaration order. */
  function Missing(required: set<Cfg>, actual: set<Option<Cfg>>): (r: seq<Cfg>)
    ensures forall c :: c in r <==> c in required && Some(c) !in actual
    ensures forall i, j :: 0 <= i < j < |r| ==> r[i] != r[j]
  {
    SelectFrom((c: Cfg) => c in required && Some(c) !in actual, 0)
  }

  /** `validate_configs`: one undefined-config error per required config missing from `actual`;
    * `actual` comes back unchanged. */
  function ValidateConfigs(v: CV.Validator, required: set<Cfg>, actual: set<Option<Cfg>>): (r: (set<Option<Cfg>>, CV.Validator))
    ensures r.0 == actual
    ensures r.1 == CV.ReportAll(v, UndefinedErrors(Missing(required, actual)))
    ensures (forall c :: c in required ==> Some(c) in actual) ==> r.1 == v
  {
    if forall c :: c in required ==> Some(c) in actual then
      assert Missing(required, actual) == [];
      (actual, v)
    else (actual, CV.ReportAll(v, UndefinedErrors(Missing(required, actual))))
  }

  /** The undefined-config errors of distinct configs name distinct configs. */
  lemma UndefinedErrorsDistinct(cs: seq<Cfg>)
    requires forall i, j :: 0 <= i < j < |cs| ==> cs[i] != cs[j]
    ensures var es := UndefinedErrors(cs);
      forall a, b :: 0 <= a < b < |es| ==> es[a].cfg != es[b].cfg
  {
    var es := UndefinedErrors(cs);
    forall a, b | 0 <= a < b < |es| ensures es[a].cfg != es[b].cfg {
      StrInjective(cs[a], cs[b]);
    }
  }

  /** The undefined-config errors name exactly the configs they were made for. */
  lemma UndefinedErrorsNames(cs: seq<Cfg>, c: Cfg)
    ensures var es := UndefinedErrors(cs);
      (exists k :: 0 <= k < |es| && es[k].cfg == c.Str()) <==> c in cs
  {
    var es := UndefinedErrors(cs);
    if exists k :: 0 <= k < |es| && es[k].cfg == c.Str() {
      var k :| 0 <= k < |es| && es[k].cfg == c.Str();
      StrInjective(cs[k], c);
    }
    if c in cs {
      var k :| 0 <= k < |cs| && cs[k] == c;
      assert es[k].cfg == c.Str();
    }
  }

  /** Each reported undefined-config error names a different config, and the configs named are exactly
    * the required ones missing from `actual`. */
  lemma UndefinedErrorsExact(required: set<Cfg>, actual: set<Option<Cfg>>)
    ensures var es := UndefinedErrors(Missing(required, actual));
      forall a, b :: 0 <= a < b < |es| ==> es[a].cfg != es[b].cfg
    ensures var es := UndefinedErrors(Missing(required, actual));
      forall c: Cfg :: (exists k :: 0 <= k < |es| && es[k].cfg == c.Str()) <==> c in required && Some(c) !in actual
  {
    var m := Missing(required, actual);
    UndefinedErrorsDistinct(m);
    forall c: Cfg ensures var es := UndefinedErrors(m);
      (exists k :: 0 <= k < |es| && es[k].cfg == c.Str()) <==> c in required && Some(c) !in actual
    {
      UndefinedErrorsNames(m, c);
    }
  }

  const MainRequired: set<Cfg> := {ServeAttachments}
  const SecretsRequired: set<Cfg> := {Token, SecretKey, ApiKey}

  function MainKeySet(d: Dicts.Dict<Option<Cfg>, Option<OU.Value>>): set<Option<Cfg>> {
    set k | k in Dicts.Keys(d)
  }

  function SecretKeySet(d: Dicts.Dict<Cfg, OU.Value>): set<Option<Cfg>> {
    set k | k in Dicts.Keys(d) :: Some(k)
  }

  /** Building `Config`: read the main dict, then check the required configs. */
  function NewConfig(dic: Dicts.Dict<string, OU.Value>, v: CV.Validator): (r: (Dicts.Dict<Option<Cfg>, Option<OU.Value>>, CV.Validator))
    ensures Dicts.DistinctKeys(r.0)
    ensures forall key :: key in Dicts.Keys(dic) ==> LookupOpt(key) in Dicts.Keys(r.0)
    ensures r.1.context == v.context
  {
    var (configs, v1) := ReadMainConfigs(dic, v);
    var (_, v2) := ValidateConfigs(v1, MainRequired, MainKeySet(configs));
    (configs, v2)
  }

  /** Building `Secrets`: read the secrets dict, then check the required secrets. */
  function NewSecrets(dic: Dicts.Dict<string, OU.Value>, v: CV.Validator): (r: (Dicts.Dict<Cfg, OU.Value>, CV.Validator))
    ensures Dicts.DistinctKeys(r.0)
    ensures forall c :: c in Dicts.Keys(r.0) ==> c.Key() in Dicts.Keys(dic)
    ensures r.1.context == v.context
  {
    var (secrets, v1) := ReadSecrets(dic, v);
    var (_, v2) := ValidateConfigs(v1, SecretsRequired, SecretKeySet(secrets));
    (secrets, v2)
  }

  datatype Loaded = Loaded(config: Dicts.Dict<Option<Cfg>, Option<OU.Value>>, secrets: Dicts.Dict<Cfg, OU.Value>)

  /** `ConfigLoader.load` on the decoded files: each config gets a fresh validator set to its own
    * context, then each validator fails on its errors, the main one first. */
  function Load(mainConf: Dicts.Dict<string, OU.Value>, secretsConf: Dicts.Dict<string, OU.Value>,
                mainFile: string, secretsFile: string, dumps: Dicts.Dict<string, seq<string>> -> string): (r: Result<Loaded, Exc>)
    ensures r.Err? ==> r.error.TrelloConfigException? || r.error.AttributeError?
    ensures r.Ok? ==> Dicts.DistinctKeys(r.value.config) && Dicts.DistinctKeys(r.value.secrets)
    ensures r.Ok? ==> forall key :: key in Dicts.Keys(mainConf) ==> LookupOpt(key) in Dicts.Keys(r.value.config)
    ensures r.Ok? ==> forall c :: c in Dicts.Keys(r.value.secrets) ==> c.Key() in Dicts.Keys(secretsConf)
  {
    var (config, mainV) := NewConfig(mainConf, CV.SetContext(CV.NewValidator, CV.Context(CV.Main, mainFile)));
    var (secrets, secretsV) := NewSecrets(secretsConf, CV.SetContext(CV.NewValidator, CV.Context(CV.Secrets, secretsFile)));
    var _ :- CV.FailIfErrors(mainV, dumps);
    var _ :- CV.FailIfErrors(secretsV, dumps);
    Ok(Loaded(config, secrets))
  }

  /** Reporting errors into a validator that holds nothing leaves them all under its one context. */
  lemma {:induction false} FreshReportAll(v: CV.Validator, es: seq<CV.ValidationError>)
    requires v.errors == []
    ensures |CV.Flatten(CV.ReportAll(v, es).errors)| == |es|
    ensures forall i :: 0 <= i < |es| ==> CV.Flatten(CV.ReportAll(v, es).errors)[i].0 == v.context
  {
    if |es| > 0 {
      var v1 := CV.ReportError(v, es[0]);
      Dicts.AppendToEmpty(v.context, CV.Reported(es[0], v.context));
      assert v1.errors == [(v.context, [CV.Reported(es[0], v.context)])];
      SingleContextReportAll(v1, [CV.Reported(es[0], v.context)], es[1..]);
      var rs := [CV.Reported(es[0], v.context)] + CV.MarkAll(es[1..], v.context);
      assert CV.Flatten([(v.context, rs)]) == seq(|rs|, j requires 0 <= j < |rs| => (v.context, rs[j].error)) + CV.Flatten([]);
    }
  }

  /** Reporting into a validator whose errors sit under its one context extends that context's run. */
  lemma ReportErrorSingle(v: CV.Validator, rs: seq<CV.Reported>, e: CV.ValidationError)
    requires v.errors == [(v.context, rs)]
    ensures CV.ReportError(v, e).errors == [(v.context, rs + [CV.Reported(e, v.context)])]
    ensures CV.ReportError(v, e).context == v.context
  {
    Dicts.AppendToSingle(v.context, rs, CV.Reported(e, v.context));
  }

  lemma MarkAllCons(es: seq<CV.ValidationError>, ctx: Option<CV.Context>)
    requires |es| > 0
    ensures CV.MarkAll(es, ctx) == [CV.Reported(es[0], ctx)] + CV.MarkAll(es[1..], ctx)
  {
  }

  lemma {:induction false} SingleContextReportAll(v: CV.Validator, rs: seq<CV.Reported>, es: seq<CV.ValidationError>)
    requires v.errors == [(v.context, rs)]
    ensures CV.ReportAll(v, es).errors == [(v.context, rs + CV.MarkAll(es, v.context))]
    decreases |es|
  {
    if |es| == 0 {
      assert rs + CV.MarkAll(es, v.context) == rs;
    } else {
      var r := CV.Reported(es[0], v.context);
      var v1 := CV.ReportError(v, es[0]);
      assert CV.ReportAll(v, es) == CV.ReportAll(v1, es[1..]);
      ReportErrorSingle(v, rs, es[0]);
      SingleContextReportAll(v1, rs + [r], es[1..]);
      MarkAllCons(es, v.context);
      Seqs.ConsAssoc(rs, r, CV.MarkAll(es[1..], v.context));
    }
  }

  /** What a config dict needs for loading to succeed: every known entry passes its check and every
    * required key is present. */
  ghost predicate ConfOk(dic: Dicts.Dict<string, OU.Value>, required: set<Cfg>) {
    AllKnownPass(dic) && forall c :: c in required ==> exists i :: HasKey(dic, i, c)
  }

  /** The errors a fresh validator collects while building `Config`. */
  lemma NewConfigErrors(dic: Dicts.Dict<string, OU.Value>, ctx: CV.Context)
    ensures var v := NewConfig(dic, CV.SetContext(CV.NewValidator, ctx)).1;
      (|CV.Flatten(v.errors)| == 0 <==> ConfOk(dic, MainRequired))
      && forall i :: 0 <= i < |CV.Flatten(v.errors)| ==> CV.Flatten(v.errors)[i].0.Some?
  {
    var v0 := CV.SetContext(CV.NewValidator, ctx);
    var configs := ReadMainConfigs(dic, v0).0;
    var missing := Missing(MainRequired, MainKeySet(configs));
    var es := Errors(dic) + UndefinedErrors(missing);
    assert NewConfig(dic, v0).1 == CV.ReportAll(v0, es) by {
      ReadMainSplit(dic, v0);
      ReportAllConcat(v0, Errors(dic), UndefinedErrors(missing));
    }
    FreshReportAll(v0, es);
    ErrorsNone(dic);
    MainMissing(dic, v0);
  }

  /** No main config is missing exactly when the dict has every required key. */
  lemma MainMissing(dic: Dicts.Dict<string, OU.Value>, v: CV.Validator)
    ensures |Missing(MainRequired, MainKeySet(ReadMainConfigs(dic, v).0))| == 0 <==>
      forall c :: c in MainRequired ==> exists i :: HasKey(dic, i, c)
  {
    MainConfigKeys(dic, v);
    var missing := Missing(MainRequired, MainKeySet(ReadMainConfigs(dic, v).0));
    if |missing| != 0 {
      assert missing[0] in missing;
    }
  }

  /** No secret is missing exactly when every required member has a passing entry. */
  lemma SecretsMissing(dic: Dicts.Dict<string, OU.Value>, v: CV.Validator)
    ensures |Missing(SecretsRequired, SecretKeySet(ReadSecrets(dic, v).0))| == 0 <==>
      forall c :: c in SecretsRequired ==> exists i :: Passes(dic, i, c)
  {
    SecretsKeys(dic, v);
    var secrets := ReadSecrets(dic, v).0;
    var missing := Missing(SecretsRequired, SecretKeySet(secrets));
    if |missing| != 0 {
      assert missing[0] in missing;
    }
    forall c | c in Dicts.Keys(secrets) ensures Some(c) in SecretKeySet(secrets) {
    }
  }

  /** When every known entry passes, an entry with a member's key is a passing one. */
  lemma PassesWhenAllPass(dic: Dicts.Dict<string, OU.Value>, c: Cfg)
    requires AllKnownPass(dic)
    ensures (exists i :: HasKey(dic, i, c)) <==> exists i :: Passes(dic, i, c)
  {
    if exists i :: HasKey(dic, i, c) {
      var i :| HasKey(dic, i, c);
      assert Passes(dic, i, c);
    }
  }

  /** The secrets need a passing entry per required member and no failing entry. */
  lemma SecretsOkIff(dic: Dicts.Dict<string, OU.Value>)
    ensures ConfOk(dic, SecretsRequired) <==>
      |Errors(dic)| == 0 && forall c :: c in SecretsRequired ==> exists i :: Passes(dic, i, c)
  {
    ErrorsNone(dic);
    if AllKnownPass(dic) {
      forall c | c in SecretsRequired ensures (exists i :: HasKey(dic, i, c)) <==> exists i :: Passes(dic, i, c) {
        PassesWhenAllPass(dic, c);
      }
    }
  }

  /** The errors a fresh validator collects while building `Secrets`. */
  lemma NewSecretsErrors(dic: Dicts.Dict<string, OU.Value>, ctx: CV.Context)
    ensures var v := NewSecrets(dic, CV.SetContext(CV.NewValidator, ctx)).1;
      (|CV.Flatten(v.errors)| == 0 <==> ConfOk(dic, SecretsRequired))
      && forall i :: 0 <= i < |CV.Flatten(v.errors)| ==> CV.Flatten(v.errors)[i].0.Some?
  {
    var v0 := CV.SetContext(CV.NewValidator, ctx);
    var secrets := ReadSecrets(dic, v0).0;
    var missing := Missing(SecretsRequired, SecretKeySet(secrets));
    var es := Errors(dic) + UndefinedErrors(missing);
    assert NewSecrets(dic, v0).1 == CV.ReportAll(v0, es) by {
      ReadSecretsSplit(dic, v0);
      ReportAllConcat(v0, Errors(dic), UndefinedErrors(missing));
    }
    FreshReportAll(v0, es);
    SecretsMissing(dic, v0);
    SecretsOkIff(dic);
    assert |es| == |Errors(dic)| + |missing|;
  }

  /** Loading succeeds exactly when both dicts pass every known check and hold every required key. */
  lemma LoadSucceeds(mainConf: Dicts.Dict<string, OU.Value>, secretsConf: Dicts.Dict<string, OU.Value>,
                     mainFile: string, secretsFile: string, dumps: Dicts.Dict<string, seq<string>> -> string)
    ensures Load(mainConf, secretsConf, mainFile, secretsFile, dumps).Ok? <==>
      ConfOk(mainConf, MainRequired) && ConfOk(secretsConf, SecretsRequired)
    ensures Load(mainConf, secretsConf, mainFile, secretsFile, dumps).Err? ==>
      Load(mainConf, secretsConf, mainFile, secretsFile, dumps).error.TrelloConfigException?
  {
    var mainCtx := CV.Context(CV.Main, mainFile);
    var secretsCtx := CV.Context(CV.Secrets, secretsFile);
    NewConfigErrors(mainConf, mainCtx);
    NewSecretsErrors(secretsConf, secretsCtx);
    var mainV := NewConfig(mainConf, CV.SetContext(CV.NewValidator, mainCtx)).1;
    var secretsV := NewSecrets(secretsConf, CV.SetContext(CV.NewValidator, secretsCtx)).1;
    CV.FailIfErrorsSpec(mainV, dumps);
    CV.FailIfErrorsSpec(secretsV, dumps);
  }
}

/**
 * The request validation of the device routes: the rule chains of `/register` and `/report` and the
 * `validate` step that either rejects the request with one message per failed rule or passes it on.
 */
module DeviceRoutes {

  /** A JSON value of a request body. */
  datatype Value = Str(s: string) | Num(n: int) | Bool(b: bool) | Arr(items: seq<Value>) | Obj | Null

  /** A request body: the fields present, by name. */
  type Body = map<string, Value>

  /** The checks the chains use. */
  datatype Check = NotEmpty | IsString | IsBoolean | IsArray | IsGeofence

  /** One chain: a field, whether `optional()` lets it be absent, its check and its error message. */
  datatype Rule = Rule(field: string, optional: bool, check: Check, message: string)

  /** The validator's default message. */
  const InvalidValue := "Invalid value"

  /** The `/register` chains. */
  const RegisterRules: seq<Rule> := [
    Rule("deviceId", false, NotEmpty, "Device ID is required"),
    Rule("model", true, IsString, InvalidValue),
    Rule("osVersion", true, IsString, InvalidValue),
    Rule("appVersion", true, IsString, InvalidValue)]

  /** The `/report` chains. */
  const ReportRules: seq<Rule> := [
    Rule("deviceId", false, NotEmpty, InvalidValue),
    Rule("isCompliant", false, IsBoolean, InvalidValue),
    Rule("violations", true, IsArray, InvalidValue),
    Rule("geofenceStatus", true, IsGeofence, InvalidValue)]

  /** The validator's string form is non-empty (`notEmpty()`). */
  predicate NonEmptyValue(v: Value)
  {
    match v
    case Str(s) => s != ""
    case Num(_) => true
    case Bool(_) => true
    case Arr(items) => |items| > 0
    case Obj => true
    case Null => false
  }

  /** `isBoolean()`: the string form is one of "true", "false", "1", "0". */
  predicate BooleanLike(v: Value)
  {
    match v
    case Bool(_) => true
    case Num(n) => n == 0 || n == 1
    case Str(s) => s == "true" || s == "false" || s == "1" || s == "0"
    case _ => false
  }

  /** `isIn(['inside', 'outside'])`. */
  predicate GeofenceName(v: Value)
  {
    v.Str? && (v.s == "inside" || v.s == "outside")
  }

  /** Whether a present value passes a check. */
  predicate Holds(c: Check, v: Value)
  {
    match c
    case NotEmpty => NonEmptyValue(v)
    case IsString => v.Str?
    case IsBoolean => BooleanLike(v)
    case IsArray => v.Arr?
    case IsGeofence => GeofenceName(v)
  }

  /** A chain passes when its field is absent and optional, or present and passing the check. */
  predicate Passes(body: Body, r: Rule)
  {
    if r.field in body then Holds(r.check, body[r.field]) else r.optional
  }

  /** The messages of the failed chains, in chain order: one per failed chain and none for a passing one. */
  function Errors(body: Body, rules: seq<Rule>): (errs: seq<string>)
    ensures |errs| <= |rules|
    ensures errs == [] <==> forall i :: 0 <= i < |rules| ==> Passes(body, rules[i])
    ensures |errs| == |rules| <==> forall i :: 0 <= i < |rules| ==> !Passes(body, rules[i])
    ensures |rules| == 1 ==> errs == if Passes(body, rules[0]) then [] else [rules[0].message]
  {
    if rules == [] then []
    else
      var rest := Errors(body, rules[1..]);
      assert forall i :: 1 <= i < |rules| ==> rules[i] == rules[1..][i - 1];
      if Passes(body, rules[0]) then rest else [rules[0].message] + rest
  }

  /**
   * The messages of two chains run one after the other are the first chain's messages followed by the
   * second's; with the single-rule case above, this fixes every message and its place in rule order.
   */
  lemma {:induction false} ErrorsAppend(body: Body, a: seq<Rule>, b: seq<Rule>)
    ensures Errors(body, a + b) == Errors(body, a) + Errors(body, b)
  {
    if a == [] {
      assert a + b == b;
    } else {
      assert (a + b)[0] == a[0];
      assert (a + b)[1..] == a[1..] + b;
      ErrorsAppend(body, a[1..], b);
    }
  }

  /** What `validate` does: answer 400 with the messages, or call `next` once. */
  datatype Verdict = Next | BadRequest(messages: seq<string>)

  /** `validate`: the request goes on exactly when no chain failed; otherwise every message is returned. */
  function Validate(errors: seq<string>): (v: Verdict)
    ensures v.Next? <==> errors == []
    ensures v.BadRequest? ==> v.messages == errors && |v.messages| > 0
  {
    if errors == [] then Next else BadRequest(errors)
  }

  /**
   * `/register`: passes exactly when `deviceId` is present and non-empty and each of `model`, `osVersion`
   * and `appVersion` is absent or a string.
   */
  function ValidateRegister(body: Body): (v: Verdict)
    ensures v.Next? <==>
      && "deviceId" in body && NonEmptyValue(body["deviceId"])
      && ("model" in body ==> body["model"].Str?)
      && ("osVersion" in body ==> body["osVersion"].Str?)
      && ("appVersion" in body ==> body["appVersion"].Str?)
    ensures !("deviceId" in body && NonEmptyValue(body["deviceId"])) ==>
      v.BadRequest? && |v.messages| > 0 && v.messages[0] == "Device ID is required"
  {
    var rs := RegisterRules;
    var errs := Errors(body, rs);
    assert (forall i :: 0 <= i < |rs| ==> Passes(body, rs[i])) <==>
      Passes(body, rs[0]) && Passes(body, rs[1]) && Passes(body, rs[2]) && Passes(body, rs[3]);
    assert !Passes(body, rs[0]) ==> errs == [rs[0].message] + Errors(body, rs[1..]);
    Validate(errs)
  }

  /**
   * `/report`: passes exactly when `deviceId` is present and non-empty, `isCompliant` is present and
   * boolean-like, `violations` is absent or an array, and `geofenceStatus` is absent or inside/outside.
   */
  function ValidateReport(body: Body): (v: Verdict)
    ensures v.Next? <==>
      && "deviceId" in body && NonEmptyValue(body["deviceId"])
      && "isCompliant" in body && BooleanLike(body["isCompliant"])
      && ("violations" in body ==> body["violations"].Arr?)
      && ("geofenceStatus" in body ==> GeofenceName(body["geofenceStatus"]))
  {
    var rs := ReportRules;
    assert (forall i :: 0 <= i < |rs| ==> Passes(body, rs[i])) <==>
      Passes(body, rs[0]) && Passes(body, rs[1]) && Passes(body, rs[2]) && Passes(body, rs[3]);
    Validate(Errors(body, rs))
  }

  // ------------------------------------------------------------ the isCompliant discrepancy

  /** JavaScript truthiness of a body value. */
  predicate JsTruthy(v: Value)
  {
    match v
    case Str(s) => s != ""
    case Num(n) => n != 0
    case Bool(b) => b
    case Arr(_) => true
    case Obj => true
    case Null => false
  }

  /** The Boolean Mongoose stores for a value `isBoolean()` accepted. */
  function StoredBoolean(v: Value): bool
    requires BooleanLike(v)
  {
    match v
    case Bool(b) => b
    case Num(n) => n == 1
    case Str(s) => s == "true" || s == "1"
  }

  /** What a report does with its `isCompliant` value: the stored flags and whether the auto-lock path runs. */
  datatype ReportEffect = ReportEffect(storedCompliant: bool, storedLocked: bool, autoLocks: bool)

  /**
   * The controller as written: `isCompliant` is stored through Mongoose's cast, while `isLocked` and the
   * auto-lock branch use JavaScript's `!isCompliant` on the raw value.
   */
  function ReportEffectAsWritten(v: Value): ReportEffect
    requires BooleanLike(v)
  {
    ReportEffect(StoredBoolean(v), !JsTruthy(v), !JsTruthy(v))
  }

  /**
   * The report `{ deviceId: "phone-1", isCompliant: "false" }` passes validation, yet as written it stores a
   * non-compliant device that is not locked and appends no `AUTO_LOCK_TRIGGERED` entry.
   */
  lemma StringFalseEscapesLock()
    ensures var body := map["deviceId" := Str("phone-1"), "isCompliant" := Str("false")];
            && ValidateReport(body).Next?
            && var e := ReportEffectAsWritten(body["isCompliant"]);
               !e.storedCompliant && !e.storedLocked && !e.autoLocks
  {
    var body := map["deviceId" := Str("phone-1"), "isCompliant" := Str("false")];
    assert "violations" !in body && "geofenceStatus" !in body;
  }

  /** The compliance flag the report handler should act on: the Boolean that is stored. */
  function DecodeCompliance(v: Value): (c: bool)
    requires BooleanLike(v)
    ensures c <==> v == Bool(true) || v == Num(1) || v == Str("true") || v == Str("1")
  {
    StoredBoolean(v)
  }

  /**
   * The corrected handling: one decoded flag drives the stored compliance, the lock and the auto-lock
   * branch. It stores the same compliance as the code as written, and a stored non-compliant report is
   * always locked and always audited.
   */
  function ReportEffectCorrected(v: Value): (e: ReportEffect)
    requires BooleanLike(v)
    ensures e.storedCompliant == ReportEffectAsWritten(v).storedCompliant
    ensures e.storedLocked <==> !e.storedCompliant
    ensures e.autoLocks <==> !e.storedCompliant
  {
    var c := DecodeCompliance(v);
    ReportEffect(c, !c, !c)
  }

  /** The two agree on every value except the strings "false" and "0". */
  lemma {:induction false} AsWrittenDiffersOnlyOnStrings(v: Value)
    requires BooleanLike(v)
    ensures ReportEffectAsWritten(v) != ReportEffectCorrected(v) <==> v == Str("false") || v == Str("0")
  {
  }
}

/** The part of object-schema validation the route schemas rely on: per-key
    rules checked in declaration order, the first failing key reported
    (validation stops at the first error), and keys the schema does not
    declare refused after every declared key has passed. */
module Joi {
  import opened Json

  /** One declared key: whether it must be present, whether an explicit
      `null` is allowed, and the test a present non-null value must pass. */
  datatype Rule = Rule(key: string, required: bool, allowNull: bool, accepts: Value -> bool)

  type Schema = seq<Rule>

  datatype SchemaError =
    | Invalid(key: string)   // a declared key is missing or holds a bad value
    | NotAllowed             // the body carries a key the schema does not declare

  datatype Verdict = Accepted | Rejected(error: SchemaError)

  /** JavaScript's largest safe integer, 2^53 - 1; `number()` refuses a
      number beyond it as unsafe. */
  const MaxSafeInteger: int := 9_007_199_254_740_991

  /** `number().integer()`: a safe number with no fractional part. */
  predicate IsInteger(v: Value) {
    v.Int? && -MaxSafeInteger <= v.i <= MaxSafeInteger
  }

  /** `string()`: the empty string is refused unless explicitly allowed. */
  predicate IsString(v: Value) {
    v.Str? && |v.s| > 0
  }

  predicate Passes(rule: Rule, body: Body) {
    if rule.key !in body then !rule.required
    else (rule.allowNull && body[rule.key] == Null) || rule.accepts(body[rule.key])
  }

  function Keys(schema: Schema): set<string> {
    set i | 0 <= i < |schema| :: schema[i].key
  }

  /** The key of the first rule that fails, in declaration order. */
  function FirstFailing(schema: Schema, body: Body): (r: Option<string>)
    ensures r.None? <==> forall i :: 0 <= i < |schema| ==> Passes(schema[i], body)
    ensures r.Some? ==>
      exists i :: 0 <= i < |schema| && schema[i].key == r.value && !Passes(schema[i], body)
                  && forall j :: 0 <= j < i ==> Passes(schema[j], body)
    decreases |schema|
  {
    if |schema| == 0 then None
    else if !Passes(schema[0], body) then Some(schema[0].key)
    else
      var r := FirstFailing(schema[1..], body);
      assert forall i :: 1 <= i < |schema| ==> schema[i] == schema[1..][i - 1];
      r
  }

  /** Validation of a body against a schema. */
  function Validate(schema: Schema, body: Body): (v: Verdict)
    ensures v.Accepted? <==>
      (forall i :: 0 <= i < |schema| ==> Passes(schema[i], body)) && body.Keys <= Keys(schema)
    ensures v.Rejected? && v.error.Invalid? ==>
      exists i :: 0 <= i < |schema| && schema[i].key == v.error.key && !Passes(schema[i], body)
    ensures v.Rejected? && v.error.Invalid? ==> FirstFailing(schema, body) == Some(v.error.key)
    ensures v == Rejected(NotAllowed) ==>
      && (forall i :: 0 <= i < |schema| ==> Passes(schema[i], body))
      && exists k :: k in body && k !in Keys(schema)
  {
    match FirstFailing(schema, body)
    case Some(k) => Rejected(Invalid(k))
    case None => if body.Keys <= Keys(schema) then Accepted else Rejected(NotAllowed)
  }
}

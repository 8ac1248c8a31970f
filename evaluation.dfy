/** The per-output loop of the state endpoint: one call of the property
    library per requested output code, each failure kept to its own code,
    and the final rule for the vapour quality "Q". */
module Evaluation {
  import opened Wrappers
  import opened Text
  import opened Request

  /** What one call of the property library gives: a finite number, a NaN or
      infinite number, or an exception with its message. */
  datatype OracleResult = Finite(x: real) | NonFinite | Failure(message: string)

  /** The arguments of one call: output code, first input code and value,
      second input code and value, fluid name. */
  datatype Query = Query(output: string, k1: string, v1: real, k2: string, v2: real, fluid: string)

  /** The property library, as a deterministic black box. */
  type Oracle = Query -> OracleResult

  /** The code for the vapour quality. */
  const QualityCode: string := "Q"

  /** The library's answer for one output code of this request. */
  function Ask(oracle: Oracle, p: InputPair, fluid: string, code: string): OracleResult {
    oracle(Query(code, p.k1, p.v1, p.k2, p.v2, fluid))
  }

  /** The code an entry of `outs` stands for: the entry stripped, nothing if
      that is blank. */
  function CodeOf(o: string): set<string> {
    if Strip(o) != "" then {Strip(o)} else {}
  }

  /** The codes the loop has met in the first `n` entries of `outs`. */
  function RequestedUpTo(outs: seq<string>, n: nat): set<string>
    requires n <= |outs|
  {
    if n == 0 then {} else RequestedUpTo(outs, n - 1) + CodeOf(outs[n - 1])
  }

  /** The codes that are evaluated. */
  function Requested(outs: seq<string>): set<string> {
    RequestedUpTo(outs, |outs|)
  }

  /** The requested codes are exactly the stripped, non-blank entries. */
  lemma {:induction false} RequestedMembers(outs: seq<string>, n: nat, c: string)
    requires n <= |outs|
    ensures c in RequestedUpTo(outs, n) <==> exists i :: 0 <= i < n && Strip(outs[i]) != "" && Strip(outs[i]) == c
  {
    if n > 0 {
      RequestedMembers(outs, n - 1, c);
    }
  }

  /** The value recorded for one answer, `None` standing for JSON null. */
  function Cell(r: OracleResult): (v: Option<real>)
    ensures v.Some? <==> r.Finite?
    ensures v.Some? ==> v.value == r.x
  {
    match r
    case Finite(x) => Some(x)
    case NonFinite => None
    case Failure(_) => None
  }

  predicate InUnitInterval(q: real) {
    0.0 <= q <= 1.0
  }

  /** The quality rule: a numeric "Q" outside [0, 1] becomes null; nothing
      else is touched. */
  function ClampQuality(values: map<string, Option<real>>): (r: map<string, Option<real>>)
    ensures r.Keys == values.Keys
    ensures forall c :: c in values && c != QualityCode ==> r[c] == values[c]
    ensures QualityCode in values ==>
              r[QualityCode] == (if values[QualityCode].Some? && !InUnitInterval(values[QualityCode].value)
                                 then None else values[QualityCode])
  {
    if QualityCode in values && values[QualityCode].Some? && !InUnitInterval(values[QualityCode].value)
    then values[QualityCode := None]
    else values
  }

  /** The `values` object of a response, defined code by code. */
  function ExpectedValues(outs: seq<string>, p: InputPair, fluid: string, oracle: Oracle): map<string, Option<real>> {
    ClampQuality(map c | c in Requested(outs) :: Cell(Ask(oracle, p, fluid, c)))
  }

  /** The `errors` object of a response, defined code by code. */
  function ExpectedErrors(outs: seq<string>, p: InputPair, fluid: string, oracle: Oracle): map<string, string> {
    map c | c in Requested(outs) && Ask(oracle, p, fluid, c).Failure? :: Ask(oracle, p, fluid, c).message
  }

  /** When the loop has seen every entry, its maps are the specified ones,
      once the quality rule is applied to `values`. */
  lemma LoopDone(outs: seq<string>, p: InputPair, fluid: string, oracle: Oracle,
                 values: map<string, Option<real>>, errors: map<string, string>)
    requires values.Keys == Requested(outs)
    requires Agrees(values, errors, p, fluid, oracle)
    ensures ClampQuality(values) == ExpectedValues(outs, p, fluid, oracle)
    ensures errors == ExpectedErrors(outs, p, fluid, oracle)
  {
    assert values == map c | c in Requested(outs) :: Cell(Ask(oracle, p, fluid, c));
    assert errors.Keys == ExpectedErrors(outs, p, fluid, oracle).Keys;
  }

  /** What the loop keeps true of the maps it builds: each code it has
      recorded holds the value of the library's answer for it, and has an
      error entry, with the message, exactly when that answer was a failure. */
  ghost predicate Agrees(values: map<string, Option<real>>, errors: map<string, string>,
                         p: InputPair, fluid: string, oracle: Oracle)
  {
    && (forall c :: c in values ==> values[c] == Cell(Ask(oracle, p, fluid, c)))
    && (forall c :: c in errors ==> c in values)
    && (forall c :: c in values ==> (c in errors <==> Ask(oracle, p, fluid, c).Failure?))
    && (forall c :: c in errors ==> errors[c] == Ask(oracle, p, fluid, c).message)
  }

  /** Recording one more answer keeps the maps in agreement. */
  lemma RecordAgrees(values: map<string, Option<real>>, errors: map<string, string>,
                     p: InputPair, fluid: string, oracle: Oracle, key: string)
    requires Agrees(values, errors, p, fluid, oracle)
    ensures var r := Ask(oracle, p, fluid, key);
      Agrees(values[key := Cell(r)],
             if r.Failure? then errors[key := r.message] else errors,
             p, fluid, oracle)
  {
  }

  /** The loop of the state endpoint, building both maps in place. */
  method Evaluate(outs: seq<string>, p: InputPair, fluid: string, oracle: Oracle)
    returns (values: map<string, Option<real>>, errors: map<string, string>)
    ensures values == ExpectedValues(outs, p, fluid, oracle)
    ensures errors == ExpectedErrors(outs, p, fluid, oracle)
  {
    values := map[];
    errors := map[];
    var i := 0;
    while i < |outs|
      invariant 0 <= i <= |outs|
      invariant values.Keys == RequestedUpTo(outs, i)
      invariant Agrees(values, errors, p, fluid, oracle)
    {
      var key := Strip(outs[i]);
      assert RequestedUpTo(outs, i + 1) == values.Keys + CodeOf(outs[i]);
      if key != "" {
        RecordAgrees(values, errors, p, fluid, oracle, key);
        ghost var r := Ask(oracle, p, fluid, key);
        ghost var values', errors' := values[key := Cell(r)], if r.Failure? then errors[key := r.message] else errors;
        match oracle(Query(key, p.k1, p.v1, p.k2, p.v2, fluid))
        case Finite(x) =>
          values := values[key := Some(x)];
        case NonFinite =>
          values := values[key := None];
        case Failure(msg) =>
          values := values[key := None];
          errors := errors[key := msg];
        assert values == values' && errors == errors';
      }
      i := i + 1;
    }
    LoopDone(outs, p, fluid, oracle, values, errors);
    ghost var raw := values;
    if QualityCode in values && values[QualityCode].Some? {
      var q := values[QualityCode].value;
      if q < 0.0 || q > 1.0 {
        values := values[QualityCode := None];
      }
    }
    assert values == ClampQuality(raw);
  }

  /** The keys of `values` are exactly the requested codes; every key of
      `errors` is a key of `values` whose value is null. */
  lemma ResultKeys(outs: seq<string>, p: InputPair, fluid: string, oracle: Oracle)
    ensures ExpectedValues(outs, p, fluid, oracle).Keys == Requested(outs)
    ensures ExpectedErrors(outs, p, fluid, oracle).Keys <= ExpectedValues(outs, p, fluid, oracle).Keys
    ensures forall c :: c in ExpectedErrors(outs, p, fluid, oracle) ==>
              ExpectedValues(outs, p, fluid, oracle)[c] == None
  {
  }

  /** What each kind of answer leaves in the two maps, for a code other
      than "Q" (whose value may also be nulled by the quality rule). */
  lemma PerOutcome(outs: seq<string>, p: InputPair, fluid: string, oracle: Oracle, c: string)
    requires c in Requested(outs)
    ensures var values, errors := ExpectedValues(outs, p, fluid, oracle), ExpectedErrors(outs, p, fluid, oracle);
      match Ask(oracle, p, fluid, c)
      case Finite(x) => (c == QualityCode || values[c] == Some(x)) && c !in errors
      case NonFinite => values[c] == None && c !in errors
      case Failure(msg) => values[c] == None && c in errors && errors[c] == msg
  {
  }

  /** Isolation: what a code gets depends only on the library's answer for
      that code, whatever it answers for the others. */
  lemma Isolation(outs: seq<string>, p: InputPair, fluid: string, o1: Oracle, o2: Oracle, c: string)
    requires c in Requested(outs)
    requires Ask(o1, p, fluid, c) == Ask(o2, p, fluid, c)
    ensures ExpectedValues(outs, p, fluid, o1)[c] == ExpectedValues(outs, p, fluid, o2)[c]
    ensures c in ExpectedErrors(outs, p, fluid, o1) <==> c in ExpectedErrors(outs, p, fluid, o2)
    ensures c in ExpectedErrors(outs, p, fluid, o1) ==>
              ExpectedErrors(outs, p, fluid, o1)[c] == ExpectedErrors(outs, p, fluid, o2)[c]
  {
  }

  /** The quality rule: a finite "Q" outside [0, 1] is reported as null with
      no error, one inside [0, 1] is reported as it came. */
  lemma QualityRule(outs: seq<string>, p: InputPair, fluid: string, oracle: Oracle)
    requires QualityCode in Requested(outs) && Ask(oracle, p, fluid, QualityCode).Finite?
    ensures var q := Ask(oracle, p, fluid, QualityCode).x;
      ExpectedValues(outs, p, fluid, oracle)[QualityCode] == (if 0.0 <= q <= 1.0 then Some(q) else None)
    ensures QualityCode !in ExpectedErrors(outs, p, fluid, oracle)
  {
  }
}

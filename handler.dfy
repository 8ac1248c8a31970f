/** The state endpoint as a whole: the gate, the input check, the output
    defaulting and the evaluation loop, in that order. */
module Handler {
  import opened Wrappers
  import opened Catalog
  import opened Auth
  import opened Request
  import opened Evaluation

  /** The body of a successful response. */
  datatype StateResponse = StateResponse(
    fluid: string,
    inputs: map<string, real>,
    unitsHint: map<string, string>,
    values: map<string, Option<real>>,
    errors: map<string, string>)

  /** A success body, or a refusal with its HTTP status code and detail text. */
  datatype Response = Ok(body: StateResponse) | Refused(status: int, detail: string)

  /** One state request, whose `inputs` is a JSON object and so names each
      code once, for the `API_KEY` environment value `environment`
      (if set), the optional `Authorization` header and the property
      library `oracle`. */
  method HandleState(environment: Option<string>, authorization: Option<string>,
                     req: StateRequest, oracle: Oracle)
    returns (resp: Response)
    requires DistinctCodes(req.inputs)
    ensures var gate := Authorize(ConfiguredKey(environment), authorization);
      && (gate == Unauthorized ==> resp == Refused(401, "Missing Bearer token"))
      && (gate == Forbidden ==> resp == Refused(403, "Invalid token"))
      && (gate == Pass && |req.inputs| != 2 ==> resp == Refused(400, InputsMessage))
      && (gate == Pass && |req.inputs| == 2 ==>
            var p := InputPair(req.inputs[0].0, req.inputs[0].1, req.inputs[1].0, req.inputs[1].1);
            var outs := ResolveOutputs(req.outputs);
            resp == Ok(StateResponse(req.fluid, Echo(p), UnitsMap,
                                     ExpectedValues(outs, p, req.fluid, oracle),
                                     ExpectedErrors(outs, p, req.fluid, oracle))))
    ensures resp.Ok? ==> resp.body.inputs == AsMap(req.inputs)
  {
    match Authorize(ConfiguredKey(environment), authorization)
    case Unauthorized =>
      return Refused(401, "Missing Bearer token");
    case Forbidden =>
      return Refused(403, "Invalid token");
    case Pass =>
      var pair := ResolveInputs(req.inputs);
      if pair.None? {
        return Refused(400, InputsMessage);
      }
      var p := pair.value;
      EchoIsRequestInputs(req.inputs);
      var outs := ResolveOutputs(req.outputs);
      var values, errors := Evaluate(outs, p, req.fluid, oracle);
      resp := Ok(StateResponse(req.fluid, Echo(p), UnitsMap, values, errors));
  }
}

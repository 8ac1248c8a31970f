/** Shaping of a state request before anything is evaluated: the two input
    properties, taken in the order the caller sent them, and the list of
    output codes, defaulted when absent or empty. */
module Request {
  import opened Wrappers
  import opened Catalog

  /** The body of a state request. `inputs` keeps the order of the JSON
      object it came from; as a dictionary its codes are distinct. */
  datatype StateRequest = StateRequest(
    fluid: string,
    inputs: seq<(string, real)>,
    outputs: Option<seq<string>>)

  /** The two state properties passed to the property library, in order. */
  datatype InputPair = InputPair(k1: string, v1: real, k2: string, v2: real)

  const InputsMessage: string :=
    "inputs must contain exactly 2 properties (e.g. {'P':300000,'T':278.15})"

  predicate DistinctCodes(inputs: seq<(string, real)>) {
    forall i, j :: 0 <= i < j < |inputs| ==> inputs[i].0 != inputs[j].0
  }

  /** The request's `inputs` as the dictionary it is. */
  function AsMap(inputs: seq<(string, real)>): (m: map<string, real>)
    ensures m.Keys == set i | 0 <= i < |inputs| :: inputs[i].0
  {
    if inputs == [] then map[]
    else AsMap(inputs[..|inputs| - 1])[inputs[|inputs| - 1].0 := inputs[|inputs| - 1].1]
  }

  /** The first two entries, in submission order, or nothing unless there
      are exactly two. */
  function ResolveInputs(inputs: seq<(string, real)>): (r: Option<InputPair>)
    ensures r.Some? <==> |inputs| == 2
    ensures r.Some? ==> (r.value.k1 == inputs[0].0 && r.value.v1 == inputs[0].1
                         && r.value.k2 == inputs[1].0 && r.value.v2 == inputs[1].1)
  {
    if |inputs| != 2 then None
    else Some(InputPair(inputs[0].0, inputs[0].1, inputs[1].0, inputs[1].1))
  }

  /** The `inputs` object of the response; as in a dictionary display, a
      repeated code keeps the later value. */
  function Echo(p: InputPair): (m: map<string, real>)
    ensures m.Keys == {p.k1, p.k2}
    ensures m[p.k2] == p.v2
    ensures p.k1 != p.k2 ==> m[p.k1] == p.v1
  {
    map[p.k1 := p.v1, p.k2 := p.v2]
  }

  /** For a well-formed two-entry dictionary the response echoes exactly the
      request's dictionary: both codes, each with its own value. */
  lemma EchoIsRequestInputs(inputs: seq<(string, real)>)
    requires |inputs| == 2 && DistinctCodes(inputs)
    ensures ResolveInputs(inputs).Some?
    ensures Echo(ResolveInputs(inputs).value) == AsMap(inputs)
    ensures AsMap(inputs).Keys == {inputs[0].0, inputs[1].0}
    ensures AsMap(inputs)[inputs[0].0] == inputs[0].1 && AsMap(inputs)[inputs[1].0] == inputs[1].1
  {
    assert inputs[..1][..0] == [];
    assert inputs[..1] == [inputs[0]];
  }

  /** The output codes to evaluate, before trimming. */
  function ResolveOutputs(outputs: Option<seq<string>>): (outs: seq<string>)
    ensures outputs.None? || outputs.value == [] ==> outs == DefaultOutputs
    ensures outputs.Some? && outputs.value != [] ==> outs == outputs.value
    ensures outs != []
  {
    if outputs.Some? && |outputs.value| > 0 then outputs.value else DefaultOutputs
  }
}

# CoolProp API state endpoint, modelled in Dafny

The service is a small HTTP facade over the CoolProp thermophysical property
library. Its core is the `POST /state` endpoint: an optional bearer-token
gate, a check that the request names exactly two input properties, a default
list of output property codes, and a loop that asks the library for each
requested code on its own, so that one failing code turns into a null value
plus an error message without spoiling the others. A final rule nulls a
vapour quality `Q` outside [0, 1]. The `GET /fluids` listing (the library's
comma-separated fluid list, trimmed, deduplicated and sorted) and the two
catalog constants (24 default output codes, a unit hint for each) complete
the core.

Modules, in dependency order:

- `Wrappers`: `Option`, standing for Python's `None` and JSON null.
- `Text`: the Python string operations the service uses (`strip`,
  `startswith`, `split`, `split(sep, 1)`, and the code-point order that
  `sorted` applies to strings), with their properties proved as lemmas.
- `Catalog`: `DefaultOutputs` and `UnitsMap`.
- `Auth`: the gate, as a three-way decision `Pass | Unauthorized | Forbidden`.
- `Request`: the request body, the input pair and the output defaulting.
- `Evaluation`: the per-output loop, as a method with loop invariants, proved
  against a code-by-code definition of the resulting `values` and `errors`
  maps.
- `Fluids`: the fluid-list normalisation.
- `Handler`: the endpoint as a whole, in the source's order (gate, then
  inputs, then evaluation).

CoolProp itself is a parameter called the oracle. It is a deterministic
function from a query (output code, two input codes with their values, fluid
name) to one of three results: `Finite(x)`, `NonFinite` (NaN or an infinity)
or `Failure(message)` (an exception and its text). The `API_KEY` environment
value is a parameter too; the service strips it once (`Auth.ConfiguredKey`),
and the empty key that results from an unset or whitespace-only value
switches the gate off.

`main.py` lists 24 default output codes (main.py:28-50), and the model
follows the code. The gate also follows the
code rather than the usual bearer-token convention: the scheme name is
matched literally and case-sensitively, character by character against
`"Bearer "`.

## Model

| member | source | states |
|---|---|---|
| `Auth.Authorize` | main.py:112-117 | With no key configured every request passes. Otherwise a missing header, or one not starting with `"Bearer "`, gives Unauthorized. A header with the prefix passes exactly when the text after the prefix, stripped, equals the key, and is Forbidden when it does not. Both directions of "passes" are stated. |
| `Auth.ConfiguredKey` | main.py:9 | The key the service runs with is already stripped and no longer than the value. It is empty when `API_KEY` is unset, and for a set value it is empty exactly when that value is all whitespace. |
| `Auth.BlankKeyDisablesGate` | main.py:9 | A whitespace-only `API_KEY` strips to the empty key, which at main.py:112 leaves the gate open to every request, like an unset one. |
| `Auth.SetKeyEnablesGate` | main.py:8-9 | With a non-blank `API_KEY` the key is non-empty, a request without an `Authorization` header is refused as Unauthorized, and `Bearer ` followed by the stripped value passes. |
| `Auth.Token` | main.py:115 | For a header that starts with `"Bearer "`, element 1 of `split(" ", 1)`, stripped, is the rest of the header after the prefix, stripped. |
| `Auth.SchemeIsCaseSensitive` | main.py:113-114 | `"bearer "` followed by the right key is refused as Unauthorized, not accepted. |
| `Text.AfterFirst` | main.py:115 | The text after the first `c` exists exactly when `c` occurs. When it does, the string is a `c`-free prefix, `c`, then that text. |
| `Text.AfterFirstOfPrefix` | main.py:115 | For a `c`-free `p`, splitting `p + [c] + rest` at the first `c` gives `rest`. |
| `Text.Strip` | main.py:138 | `str.strip()`, used also at main.py:98 and main.py:115. No contract of its own; its properties are `StripIsInfix`, `StripSpec` and `StripIdempotent`. |
| `Text.StartsWith` | main.py:113 | `str.startswith`. No contract of its own: it is the definition that `s` begins with the characters of `p`, and `Authorize` and `SchemeIsCaseSensitive` state what the gate does with it. |
| `Text.StripIsInfix` | main.py:138 | `strip` returns a contiguous slice of its input, and everything it removed on either side is whitespace. |
| `Text.StripSpec` | main.py:138-140 | `strip` never lengthens, leaves no whitespace at either end, and gives `""` exactly for all-whitespace input (the `if not out_key: continue` test). |
| `Text.StripIdempotent` | main.py:98 | Stripping twice equals stripping once, so the fluid names come out already stripped. |
| `Text.Split` | main.py:98 | `split(sep)` gives at least one piece and no piece contains the separator. |
| `Text.JoinSplit` | main.py:98 | Joining the pieces of a split with the separator gives back the original string. |
| `Text.SplitJoin` | main.py:98 | Splitting a join of separator-free pieces gives back the pieces. |
| `Text.Less` | main.py:98 | The order `sorted` uses on strings, code point by code point with a proper prefix first. No contract of its own; `LessIrreflexive`, `LessTransitive`, `LessAsymmetric` and `LessTotal` prove it a strict total order. |
| `Text.LessIrreflexive` | main.py:98 | The string order used by `sorted` is irreflexive. |
| `Text.LessTransitive` | main.py:98 | The string order is transitive. |
| `Text.LessAsymmetric` | main.py:98 | The string order is asymmetric. |
| `Text.LessTotal` | main.py:98 | Any two distinct strings are ordered one way or the other. |
| `Catalog.CatalogConsistent` | main.py:28-78 | About the constants `DefaultOutputs` (main.py:28-50) and `UnitsMap` (main.py:53-78), which hold the source's codes and units entry for entry: there are 24 distinct default codes, `Q` among them. The unit table has an entry for each default code and no other entries. |
| `Request.ResolveInputs` | main.py:120-129 | An input pair exists exactly when the request has two inputs. Its codes and values are the first and second entries, in the order sent. |
| `Request.AsMap` | main.py:24 | The inputs read as a dictionary have exactly the codes sent as keys. |
| `Request.Echo` | main.py:163 | The echoed `inputs` object has exactly the two codes as keys, the second code with the second value, and the first code with the first value when the codes differ (a dictionary display keeps the later value of a repeated key). |
| `Request.EchoIsRequestInputs` | main.py:127-129 | For a two-entry dictionary, the echoed `inputs` map equals the request's dictionary: both codes, each with its own value. |
| `Request.ResolveOutputs` | main.py:131 | The default list is used when `outputs` is absent or empty. Otherwise the caller's list is used unchanged. The result is never empty. |
| `Evaluation.RequestedMembers` | main.py:137-140 | A code is evaluated exactly when some entry of the output list, once stripped, is that code and not blank. |
| `Evaluation.Ask` | main.py:143 | The `CP.PropsSI(out_key, k1, v1, k2, v2, fluid)` call, asking the oracle with the arguments in the source's order. No contract of its own: the oracle is unspecified; `Evaluate`, `PerOutcome` and `Isolation` state what is done with its answer. |
| `Evaluation.Cell` | main.py:145-152 | A recorded value is a number exactly when the library returned a finite number, and then it is that number. NaN, infinities and failures become null. |
| `Evaluation.ClampQuality` | main.py:155-158 | The keys are unchanged and every code other than `Q` is unchanged. A numeric `Q` outside [0, 1] becomes null. Any other `Q` is left as it was. |
| `Evaluation.Evaluate` | main.py:133-158 | The loop's `values` and `errors` equal their code-by-code definitions: each requested code has the value of its own library answer (after the quality rule), and an error entry with the exception text exactly when its answer was a failure. |
| `Evaluation.ResultKeys` | main.py:137-153 | The keys of `values` are exactly the requested codes. Every code in `errors` is also in `values`, with a null value. |
| `Evaluation.PerOutcome` | main.py:142-153 | For each requested code: a finite answer records that number (for codes other than `Q`) and no error. A non-finite answer gives null and no error. A failure gives null and its message in `errors`. |
| `Evaluation.Isolation` | main.py:142-153 | What a code receives, in both maps, depends only on the library's answer for that code, whatever it answers for the others. |
| `Evaluation.QualityRule` | main.py:155-158 | A finite `Q` is reported as is inside [0, 1] and as null outside, never with an error. |
| `Fluids.Insert` | main.py:98 | Inserting into a strictly ascending list keeps it strictly ascending, and its members become the old members plus the new one. |
| `Fluids.SortedUnique` | main.py:98 | `sorted(set(xs))` is strictly ascending and has the same members as `xs`. |
| `Fluids.AscendingDistinct` | main.py:98 | A strictly ascending list has no repeated element. |
| `Fluids.AscendingUnique` | main.py:98 | Two strictly ascending lists with the same members are equal, so the sorted result is determined by the set alone. |
| `Fluids.Names` | main.py:98 | The comprehension keeps non-blank, stripped names, and its members are exactly the non-blank stripped pieces. |
| `Fluids.FluidList` | main.py:97-98 | The fluid listing is strictly ascending, each name is non-blank and stripped, and its members are exactly the non-blank stripped comma-separated pieces of the library's list. |
| `Fluids.FluidListUnique` | main.py:98 | Any strictly ascending list of exactly those names is the fluid listing. |
| `Handler.HandleState` | main.py:109-167 | The gate, run with the `API_KEY` stripped as at main.py:9, comes first: Unauthorized gives status 401 with "Missing Bearer token", Forbidden gives 403 with "Invalid token". Then a request without exactly two inputs gets 400 with the inputs message. Otherwise the response carries the fluid, the echoed input pair (equal to the request's `inputs` dictionary), the whole unit table, and the `values`/`errors` maps of the evaluation over the resolved output list. |

## Left out

- Routing and CORS middleware (main.py:11-20), pydantic's parsing and type coercion of the body, and JSON serialisation are framework behaviour outside the core.
- Reading `API_KEY` from the environment (main.py:9) is I/O. Its value is the `environment` parameter of `HandleState`, stripped by `ConfiguredKey`; `Authorize` takes the key already stripped.
- CoolProp (`PropsSI` and `get_global_param_string`) is foreign code. It is the oracle parameter in the evaluation, and the `catalog` string in the fluid listing.
- IEEE floating point is not modelled. Values are `real`, and NaN and the infinities are the single oracle outcome `NonFinite`. The explicit `float(...)` conversion of the two input values (main.py:129) is the identity on `real`.
- The outer `except` (main.py:169-171) is not modelled. Nothing inside its `try` can raise once each property call has its own handler.
- The constant endpoints `/` (main.py:80-86), `/health` (main.py:88-90) and `/outputs` (main.py:101-107) only return the constants, which are `Catalog.DefaultOutputs` and `Catalog.UnitsMap` in the model.
- The insertion order of the `inputs`, `values` and `errors` dictionaries of a response is not modelled (main.py:163 emits `k1` before `k2`, and the loop emits codes in request order). All three are Dafny maps.
- The constant `"ok": True` field of the success body (main.py:161) is not part of `StateResponse`.
- Python's `str.isspace` follows the Unicode database. The model fixes its whitespace set to the characters CPython reports as whitespace (`Text.IsSpace`).
- `Request.StateRequest` keeps `inputs` as an ordered list of pairs, so that the first and second codes are those of the JSON object. A JSON object decoded into a dictionary names each code once, so `HandleState` and `EchoIsRequestInputs` require the codes to be distinct; duplicate keys in the raw body are merged by the JSON decoder before the service sees them, which is not modelled.

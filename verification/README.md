# Kyverno HTTP authorizer: a verified model

The authorizer answers HTTP requests by `ValidatingPolicy` resources whose match conditions,
variables and rules are CEL expressions. Policies reach it on two routes. A standalone server
watches the resources and compiles them itself. In the mesh, a control plane converts each
resource to a wire message, stores it, and streams it to sidecars, which convert it back and
compile it. This project models both routes, from the reconcile event to the
answer, and proves what each part keeps and how far the two routes agree.

| file | what it models |
|---|---|
| `Options`, `Order` | an optional value; the sorted view of a policy map, defined without sorting, and the collect-sort-append method |
| `Cel`, `Typing` | the fragment of CEL: type checker and evaluator over a heap of responses and a memo of variables; the typing rules apart from the checker |
| `Policies`, `Compiler` | the resource, its wire form and both conversions; compilation with a growing set of variables |
| `Soundness`, `Fuel` | types, termination and run-once of lazy evaluation |
| `Reference`, `LastCalls`, `Decisions` | a value semantics without laziness or sharing, and the refinement of whole policies to it |
| `Operators`, `Outcomes` | what each operator yields operand by operand, and what each policy makes of a request case by case, in plain terms |
| `Exactness`, `Departures` | how exact the condition of the refinement is, and what happens without it |
| `Engine`, `Handler`, `Headers`, `Providers` | match, rules and failure policy; the policy loop; response builders and header writing; composites |
| `Cache`, `Monotone`, `GoingBack` | the map and its `OnceValue` snapshot as interleaved steps with a lock, program counters and cells |
| `Serving` | requests answered while messages are applied |
| `Listener`, `Races` | the listener's state, and messages whose order shows |
| `Sender`, `Monitor`, `FanOut` | the sender's state, heartbeats and sweeps, the join in `SendPolicy` |
| `Distribution` | sender, messages in flight and listeners as one state machine |
| `Reconcilers`, `Routes`, `EndToEnd` | the two reconcilers, and the two routes to a decision compared |

## Main results

- **Snapshots** (`Cache`, `Monotone`, `GoingBack`). In every interleaving of any number of stores,
  deletions and reads, a read returns the sorted view of a map state that occurred, and one that
  starts after a change has returned sees that change or a later state. No reachable state is stuck
  and every run is finite. With closures replaced under the lock, reads are atomic: a read returns
  the map of some moment between its start and its return. The listener's delete path replaces the
  closure after unlocking and loses this: some run has a read return an older map than a read that
  had returned before, if and only if the calls include a deletion, two other writes and three
  reads.
- **Evaluation** (`Soundness`, `Decisions`, `Exactness`). An accepted policy with unique variable names
  never loops, never meets the "expected to be http.Response" branch, and forces each variable at
  most once. On every request on which no builder call, but for those that make the answer, changes
  a response that a variable remembers, lazy evaluation on shared, mutable responses decides exactly
  as the policy reads: declaration order, plain values. A policy that calls builders on its own
  responses only, as all documented ones do, is like that on every request. The condition is exact
  for the run: it holds if and only if the memo shows the eagerly evaluated values after every such
  call.
- **In plain terms** (`Operators`, `Typing`, `Outcomes`). The definitions that the results above share
  are pinned by laws that name none of them: the order of names, the type of every construct, the
  value of every operator and builder, the outcome of a policy and the answer that is written.
- **Where it departs** (`Departures`). The builders change a response in place, so
  `variables.b = variables.a.status(403)` changes what `variables.a` yields once `b` is forced.
  A direct call of `Compile` accepts a duplicate variable name, and forcing it can diverge; the
  resource schema rejects such a policy before it gets there.
- **Distribution** (`Races`, `Distribution`). Under delay, reordering, duplication and loss a sidecar
  only ever holds the compiled form of something stored under that very name. A delivery, duplication
  or loss leaves a client on its way to the same map exactly under a condition on the messages in
  flight. Any order of messages gives the same map if and only if no two that act on one name leave
  different things; the code orders nothing, so two versions stored in succession can leave a
  sidecar with the first. A name on which a client will differ from the control plane stays so until
  it is changed, the client is told of it or takes another snapshot.
- **Join**. `SendPolicy` gets past its wait in some run if and only if the channel has room for every
  stream. The code's channel has none, so with one stream or more nothing ever moves.
- **Two routes** (`Routes`, `EndToEnd`). For every sequence of events, versions that do not compile and
  other modes included, it is stated exactly when both routes serve the same and when they give a
  request the same answer. With HTTP policies only they serve the same list if and only if every
  surviving policy sets `failurePolicy`; otherwise the sidecar answers as if the policies that leave it
  unset and err on the request were absent. The same holds of a sidecar through a run of the
  distribution. One that connects later misses exactly the names whose last HTTP version did not
  compile while an earlier one did, until they are deleted or stored anew.

## Reading the model

- `Eval` takes `fuel`, the nesting of variable evaluations still allowed; running out is `Diverge`, Go's
  stack overflow. `Fuel.MoreFuel` shows that fuel is not otherwise observable, and
  `Soundness.EvalSound` that the number of declarations always suffices.
- `SortKeys` and `CollectKeys` stand for `slices.Sort` and `maps.Keys`. Names are compared
  character by character, as Go compares the bytes of the ASCII names Kubernetes allows.
- Where code and documentation disagree the code is followed. website/docs/policies/failure-policy.md:12
  says an unset failure policy means `Fail`; `ToProto` sends `Ignore`
  (apis/v1alpha1/validating_policy.go:39-45). website/docs/policies/authorization-rules.md:18 says a
  request no rule decides is denied; the handler writes nothing, which is kept as `NoDecision`.
  website/docs/policies/authorization-rules.md:22 says a random policy is selected among the matches; the
  code takes the first in name order. Match conditions with one false and one erring behave as
  website/docs/policies/match-conditions.md:72 says.
- `GetFailurePolicy` belongs to the kyverno library, which is not part of this model; it is taken to
  return `Fail` for an unset field.

## Model

| member | source | states |
|---|---|---|
| `Order.MapToSortedSlice` | pkg/stream/common.go:10-21 | The slice is the view of the map: for some list of its names, each once and each before the next character by character, position j holds the value of the j-th name. |
| `Order.LessIsBefore` | pkg/stream/common.go:16 | One name comes before another if and only if it is a proper prefix of it, or has the smaller character at the first place where they differ. |
| `Order.ViewInNameOrder` | pkg/stream/common.go:16-19 | An ascending list of all names of a map has each before the next in that sense, and at position j the name whose value is at position j of the view. |
| `Order.ViewOfTwo` | pkg/stream/common.go:10-21 | The view of a map with the names "a" and "b" is the value of "a", then the value of "b". |
| `Order.SortedKeys` | pkg/engine/vpol/provider/standalone.go:44-45 | The keys, ascending and each once, as many as the view has values. |
| `Order.LeastUnique` | pkg/stream/common.go:16 | A set of names has one least element, so the view does not depend on how keys were collected. |
| `Order.ViewAt` | pkg/stream/common.go:17-19 | Position j of the view holds the value of the j-th name in ascending order. |
| `Order.LessUnderPrefix` | pkg/engine/vpol/provider/standalone.go:81 | A common prefix such as "/" does not change the order of two names. |
| `Order.ViewIgnoresPrefix` | pkg/engine/vpol/provider/standalone.go:81 | Renaming every key from "n" to "/n" leaves the sorted view unchanged. |
| `Order.ViewDeterminesMap` | pkg/stream/common.go:10-21 | Two maps over the same names have equal views if and only if they are equal. |
| `Policies.ToProto` | apis/v1alpha1/validating_policy.go:14-55 | The message is `Sent(p)`: all but mode and message expressions, an unset failure policy as "Ignore". |
| `Policies.FromProto` | apis/v1alpha1/validating_policy.go:57-94 | The resource is `Received(q)`, for every message whose failure policy and messages are set, which the code dereferences. |
| `Policies.PolicyRoundTrip` | apis/v1alpha1/validating_policy.go:14-94 | What travels keeps every field but mode and message expressions, the failure policy defaulted; it arrives unchanged if and only if it had nothing to lose. |
| `Policies.WireRoundTrip` | apis/v1alpha1/validating_policy.go:14-94 | A message survives conversion and back if and only if it is no deletion and carries no action and no message expression. |
| `Compiler.VariablesProvider.constructor` | pkg/cel/variables.go:19-24 | A new provider knows no field. |
| `Compiler.VariablesProvider.RegisterField` | pkg/cel/variables.go:26-29 | Registering adds the field with its type and its name, keeps the others, and keeps fields and names in step. |
| `Typing.CheckIff` | pkg/engine/vpol/compiler/compiler.go:66-77 | The checker finds a type if and only if the typing rules, stated apart from it constructor by constructor, give that very type. |
| `Compiler.Compile` | pkg/engine/vpol/compiler/compiler.go:35-115 | Succeeds if and only if every condition has type bool without variables, every variable a type under the ones registered before it, and every rule type response or null under all of them; then yields the policy's own expressions, its failure policy or "Fail", and of variables with one name the last; otherwise names the first offending expression and whether it has no type or a wrong one. |
| `Compiler.CompileInOrder` | pkg/engine/vpol/compiler/compiler.go:61-108 | The three loops come to that result, said of the checker. |
| `Compiler.AcceptedIff` | pkg/engine/vpol/compiler/compiler.go:61-108 | A policy passes the three loops if and only if it is well typed by the rules, for some list of environments each of which adds one variable to the one before. |
| `Compiler.ProgramIs` | pkg/engine/vpol/compiler/compiler.go:83-114 | The program has the expressions of the policy in order, its failure policy or "Fail", and under each variable name the last expression of that name. |
| `Compiler.FirstErrorOffends` | pkg/engine/vpol/compiler/compiler.go:61-108 | The error names a condition, variable or rule that the typing rules refuse, everything before it being well typed, and says whether it has no type at all. |
| `Compiler.ComparisonsAreAccepted` | pkg/engine/vpol/compiler/compiler.go:70-77 | A policy is accepted whose condition compares the request method with a text. |
| `Soundness.EnvMonotone` | pkg/engine/vpol/compiler/compiler.go:83-95 | A registered field keeps its type through all later declarations. |
| `Soundness.Declared` | pkg/engine/vpol/compiler/compiler.go:83-95 | Every known variable has a declaration that checks against strictly earlier fields, the measure for termination. |
| `Soundness.EvalSound` | pkg/engine/vpol/compiler/policy.go:59-80 | An expression that checks against the first k declarations comes back with nesting k, yields its type or an error, only adds to heap and memo, and leaves every forced variable run exactly once. |
| `Soundness.VariableSound` | pkg/engine/vpol/compiler/policy.go:67-78 | Reading a variable, remembered or not, comes back with a value of the type it was registered with, or an error. |
| `Soundness.RememberSound` | pkg/engine/vpol/compiler/policy.go:68-77 | Remembering a result adds the variable to the memo and to the runs once, and disturbs no other entry. |
| `Fuel.MoreFuel` | pkg/engine/vpol/compiler/policy.go:67-78 | An evaluation that comes back does so with the same result and state under any deeper nesting. |
| `Reference.EvalRefines` | pkg/engine/vpol/compiler/policy.go:59-80 | Lazy evaluation with memo and in-place builders yields the reference value of every checked expression, in every evaluation that changes no remembered response; it changes no earlier response and keeps the memo showing the reference values. Expressions and variables that build on their own responses only are always such. |
| `Reference.BuildRefines` | pkg/cel/libs/http/impl.go:50-88 | A builder on a response nobody else holds, or one that changes no remembered response, acts as the pure update of a value. |
| `Operators.Literals` | pkg/cel/libs/http/impl.go:15-18 | A literal yields itself, and `http.response()` a response with status 0, no headers and an empty body. |
| `Operators.Inputs` | pkg/engine/vpol/compiler/policy.go:32-41 | An attribute yields the very value the request holds, or an error if it is missing, failing or of another type; so does a call, which match conditions do not have. |
| `Operators.Variables` | pkg/engine/vpol/compiler/policy.go:59-80 | A variable yields its value in a rule, and is an error where it has none and in a match condition. |
| `Operators.NotTable` | pkg/engine/vpol/compiler/policy.go:38-41 | Negation: true to false, false to true, an error to itself. |
| `Operators.AndTable` | pkg/engine/vpol/compiler/policy.go:38-41 | Conjunction for all operands, errors included: false wins over an error on either side, otherwise the first error stands. |
| `Operators.OrTable` | pkg/engine/vpol/compiler/policy.go:38-41 | Disjunction likewise, where true wins. |
| `Operators.EqTable` | pkg/engine/vpol/compiler/policy.go:38-41 | Two booleans, integers or strings compare true if and only if they are equal; the first operand's error stands. |
| `Operators.CondTable` | pkg/engine/vpol/compiler/policy.go:91-93 | A conditional yields the branch that its condition selects, or the condition's error. |
| `Operators.StatusReads` | pkg/engine/vpol/compiler/policy.go:91-93 | The status of a response is the one it holds. |
| `Operators.StatusSets` | pkg/cel/libs/http/impl.go:50-59 | The status becomes the argument; headers and body stay. |
| `Operators.BodySets` | pkg/cel/libs/http/impl.go:79-88 | The body becomes the argument; status and headers stay. |
| `Operators.HeaderAppends` | pkg/cel/libs/http/impl.go:61-77 | The value is appended to those under the key; every other key, the status and the body stay. |
| `Operators.HeaderOnFresh` | pkg/cel/libs/http/impl.go:61-77 | `http.response().withHeader("x-user", "bob")` has the one header x-user with the one value bob. |
| `Operators.BuilderErrors` | pkg/cel/libs/http/impl.go:50-88 | The first operand of a builder that errs decides, and null has no builders. |
| `Operators.ChangesInPlace` | pkg/cel/libs/http/impl.go:61-77 | Evaluating withHeader appends the value in the heap at the receiver's own address, leaves every other response and the memo, and yields that address. |
| `LastCalls.TailRefines` | pkg/engine/vpol/compiler/policy.go:91-102 | A rule has its reference value even if the chain of builder calls that makes it changes a remembered response. |
| `LastCalls.UnsharedTailIsQuiet` | pkg/engine/vpol/compiler/policy.go:91-102 | A rule that builds on its own responses, but for that chain, changes no remembered response before it, on any request. |
| `Reference.RefinesAfter` | pkg/engine/vpol/compiler/policy.go:91-102 | Refinement composes: a later evaluation does not disturb the result of an earlier one. |
| `Engine.Match` | pkg/engine/vpol/compiler/policy.go:32-58 | Any false condition skips whatever errs around it; else all errors in order; else the policy applies. |
| `Engine.VerdictIgnoresOrder` | pkg/engine/vpol/compiler/policy.go:37-57 | Permuting the conditions changes neither the verdict nor, as a multiset, the errors. |
| `Engine.LazyVariables` | pkg/engine/vpol/compiler/policy.go:67-78 | Whatever the map's iteration order, the lazy map ends up with every variable's own program. |
| `Engine.Inner` | pkg/engine/vpol/compiler/policy.go:81-104 | Match, then the rules over one shared memo, up to the first that is not null or errs. |
| `Engine.ForHTTP` | pkg/engine/vpol/compiler/policy.go:31-115 | For every request: a rule's response as it is, an abstention where no rule decides, the errors under "Fail" and an abstention under anything else. |
| `Engine.FailurePolicyMatters` | pkg/engine/vpol/compiler/policy.go:105-113 | Fail and Ignore give the same outcome if and only if match and rules raise no error. |
| `Decisions.ConditionSound` | pkg/engine/vpol/compiler/policy.go:39-51 | An accepted condition yields a bool or an error, so the conversion never fails. |
| `Decisions.RulesSound` | pkg/engine/vpol/compiler/policy.go:117-138 | No sequence of accepted rules loops or yields a value that is not a response. |
| `Decisions.PolicyIsTypeSound` | pkg/engine/vpol/compiler/compiler.go:61-108 | For every accepted policy with unique names and every request: conditions bool or error, rules response, null or error, no crash; policy.go:133-136 is unreachable. |
| `Decisions.ProgramAt` | pkg/engine/vpol/compiler/compiler.go:94 | With unique names every variable keeps its own program. |
| `Decisions.EagerSolves` | website/docs/policies/variables.md:9 | Evaluating variables once each in declaration order gives every variable the value of its own expression under the final values. |
| `Decisions.RunRefines` | pkg/engine/vpol/compiler/policy.go:81-104 | The rules over the lazy map decide as over the eagerly evaluated variables, in every run whose builder calls before the answer change no remembered response. |
| `Decisions.MatchDecides` | website/docs/policies/match-conditions.md:72-75 | The verdict said of the conditions as written: false dominates error, error dominates true. |
| `Decisions.FirstRuleDecides` | website/docs/policies/authorization-rules.md:15-17 | If rule j is the first whose value is not null, its value is the decision. |
| `Decisions.NullRulesAbstain` | pkg/engine/vpol/compiler/policy.go:91-103 | If every rule is null, the policy abstains. |
| `Decisions.PolicyDecides` | pkg/engine/vpol/compiler/policy.go:31-115 | For every request with a quiet run the compiled, lazily evaluated policy has the outcome of the policy as written: skip on any false, else settle errors by the failure policy, else the first rule that is not null. |
| `Decisions.NoSharedBuildersIsQuiet` | pkg/cel/libs/http/impl.go:50-88 | A policy that builds on its own responses, but for the last calls of its rules, has a quiet run on every request. |
| `Decisions.ErrorsAsWritten` | pkg/engine/vpol/compiler/policy.go:81-96 | Match and rules raise an error if and only if no condition as written is false and a condition, or the first rule that is not null, errs. |
| `Outcomes.RuleDecides` | pkg/engine/vpol/compiler/policy.go:91-113 | On a request with a quiet run, with every condition true as written and every rule before the j-th null: the response of the j-th is the outcome as it is, and its error is rejected with that very text if the failure policy is "Fail" or unset and abstained from otherwise; if every rule is null, the policy abstains. |
| `Outcomes.ConditionsDecide` | pkg/engine/vpol/compiler/policy.go:32-58 | A false condition makes it abstain; with none false, the errors of exactly the conditions that err, in order, are rejected or abstained from likewise. |
| `Outcomes.ErrorsListed` | pkg/engine/vpol/compiler/policy.go:37-54 | The errors collected are those of the erring conditions, one each and in order. |
| `Outcomes.SilentAbstains` | pkg/engine/vpol/compiler/policy.go:52-58 | A policy with a false condition, or only null rules, or an error under another failure policy, abstains. |
| `Exactness.SharedBuildIsSeen` | pkg/cel/libs/http/impl.go:50-88 | From a memo that shows the reference values, a builder call keeps it so if and only if it changes no response a variable remembers. |
| `Exactness.BuildsExactly` | pkg/engine/vpol/compiler/policy.go:67-78 | For every checked expression: no builder call of its evaluation changes a remembered response if and only if the memo shows the reference values after each of them. |
| `Exactness.QuietExactly` | pkg/engine/vpol/compiler/policy.go:59-104 | The same of every accepted policy and request, over all builder calls before the answer's own. |
| `Exactness.NextRuleTells` | pkg/engine/vpol/compiler/policy.go:91-103 | If the rules of an accepted policy abstain, one rule more that answers with a remembered variable's response gives the reference answer if and only if the memo still shows the variable's reference value. |
| `Departures.SharedBuildersLeak` | pkg/cel/libs/http/impl.go:50-59 | Two accepted policies over the same variables: `variables.a` answers 200 alone and 403 once `variables.b` has been forced, where the reference says 200. |
| `Departures.DuplicateNamesDiverge` | pkg/engine/vpol/compiler/compiler.go:83-95 | With x = true, x = variables.x the policy is accepted and forcing x diverges at every nesting. |
| `Handler.Handle` | pkg/httpauth/handlers.go:33-91 | Errors of the nested request, the provider and the body answer in that order; else the first policy that does not abstain has its response written as it is or its errors reported as they are; else nothing is written. |
| `Handler.AnswerIsFirst` | pkg/httpauth/handlers.go:60-71 | The answer of a list, case by case of the outcome of its first policy that does not abstain. |
| `Handler.DecideAppend` | pkg/httpauth/handlers.go:57-71 | A list's decision is its first part's, or the second part's where the first has none. |
| `Handler.LeastNameDecides` | pkg/httpauth/handlers.go:60-71 | Over the sorted view, the policy with the least name among those that do not abstain answers. |
| `Handler.FirstNameAnswers` | pkg/httpauth/handlers.go:60-71 | If a policy does not abstain and every policy whose name comes before its own, character by character, does, its response is written as it is or its errors reported as they are. |
| `Handler.AddingPolicy` | pkg/httpauth/handlers.go:57-71 | A new policy gives the answer exactly when it decides and its name precedes every decider; otherwise the answer stays. |
| `Handler.AnswersAgreeIff` | pkg/httpauth/handlers.go:57-71 | Two policy maps answer a request alike if and only if neither decides it or their least deciding names have the same outcome. |
| `Handler.RemovingPolicies` | pkg/httpauth/handlers.go:57-71 | Removing any set of policies leaves the answer if and only if the one that answers is not in it, or the next one in line has the very same outcome. |
| `Serving.ServedAnswer` | pkg/httpauth/handlers.go:46-71 | In every interleaving with processPolicy calls, a request is answered as the least deciding name of the map after some of the messages, each applied once in the order of their changes; every message whose processing had returned before the read started is among them. |
| `Headers.Response.constructor` | pkg/cel/libs/http/impl.go:15-18 | A fresh response has status 0, no headers, an empty body. |
| `Headers.Response.WithStatus` | pkg/cel/libs/http/impl.go:50-59 | Changes the status of this very object, nothing else, and returns it. |
| `Headers.Response.WithHeader` | pkg/cel/libs/http/impl.go:61-77 | Appends the value under the key of this very object, keeps every other key, and returns it. |
| `Headers.Response.WithBody` | pkg/cel/libs/http/impl.go:79-88 | Changes the body of this very object, nothing else, and returns it. |
| `Headers.ChainKeepsLast` | pkg/cel/libs/http/impl.go:61-77 | After any chain of builders a key's last value is that of the last withHeader call for it, and keys never added are absent. |
| `Headers.ChainStatusAndBody` | pkg/cel/libs/http/impl.go:50-88 | After any chain the status and body are those of the last calls for them. |
| `Headers.WriteHeaders` | pkg/httpauth/handlers.go:80-87 | The written headers are those of ranging the map in some order that visits each key once. |
| `Headers.WriteOrderMatters` | pkg/httpauth/handlers.go:82-86 | All iteration orders write the same headers if and only if no two keys with one canonical form end in different values. |
| `Headers.ChainHeaders` | pkg/httpauth/handlers.go:80-87 | If keys have distinct canonical forms, in every order each is written with the last value added for it. |
| `Providers.CompiledPolicies` | pkg/engine/providers/composite.go:15-26 | Any tree of composites yields the left-to-right concatenation of its sources, or the first source error. |
| `Providers.JoinAppend` | pkg/engine/providers/composite.go:16-25 | Concatenation with first-error semantics distributes over appending. |
| `Providers.ListsByIndex` | pkg/engine/providers/composite.go:15-26 | A composite over sources that all succeed has policy j of source i at the place after all policies of the sources before, and nothing else. |
| `Providers.FirstFailure` | pkg/engine/providers/composite.go:18-21 | The first source that fails is the result. |
| `Providers.ExternalsFirst` | pkg/commands/serve/standalone-authz/command.go:118 | In the server's nesting the first error, external before cluster, is the result; without one external policies decide first, cluster policies only where none of them does. |
| `Cache.InitialInv` | pkg/stream/listener/listener.go:54-57 | The empty map with its constant closure satisfies the invariant. |
| `Cache.StepKeepsInv` | pkg/stream/listener/listener.go:144-172 | Every step of every thread keeps it: lock ownership, one forcer per cell, values not older than their cell, writers not done before a cell as new as their change is current. |
| `Cache.ReadsAreSnapshots` | pkg/stream/listener/listener.go:61-63 | In every run each returned list is the sorted view of a state the map had, and each state comes from its predecessor by its author's operation. |
| `Cache.ReadsAreFresh` | pkg/stream/listener/listener.go:144-172 | A read that starts after a change has returned sees that change or a later one, on the delete path too. |
| `Cache.StaleOnlyWhilePending` | pkg/stream/listener/listener.go:154-160 | A forced current snapshot differs from the map only while the author of the last change has not yet replaced the closure. |
| `Cache.NeverStuck` | pkg/stream/listener/listener.go:145-153 | While any call is unfinished some thread can step: no double locking, no deadlock between Once and mutex. |
| `Cache.RunsAreShort` | pkg/stream/listener/listener.go:144-172 | Every step uses up one of at most seven steps a call has, so no run goes on for ever. |
| `Cache.AllCallsFinish` | pkg/stream/listener/listener.go:144-172 | A run that cannot go on has finished every call. |
| `Monotone.StepAdvances` | pkg/engine/vpol/provider/standalone.go:63-82 | With closures replaced under the lock, the version of the current closure never skips one. |
| `Monotone.ReadIsAtomic` | pkg/engine/vpol/provider/standalone.go:63-88 | A read returns the map of some moment between its first step and its return, every write placed at the replacement of its closure. |
| `Monotone.ReadsNeverGoBack` | pkg/engine/vpol/provider/standalone.go:63-82 | So a read started after another returned never sees an older map. |
| `GoingBack.NeverBackWithoutDeletes` | pkg/stream/listener/listener.go:162-171 | As long as nothing is deleted, the listener's reads never go back either. |
| `GoingBack.GoingBackTakes` | pkg/stream/listener/listener.go:144-172 | A run of the listener that goes back has a deletion, two other writes and three reads among its calls. |
| `GoingBack.ReadsCanGoBack` | pkg/stream/listener/listener.go:154-160 | Whatever the names and policies, any such calls have a run that goes back: the later read returns the map before the deletion that the earlier one has seen. |
| `GoingBack.ReadsGoBackIff` | pkg/stream/listener/listener.go:154-160 | For every system of calls: some run goes back if and only if deletions replace the closure after unlocking and the calls include a deletion, two other writes and three reads. |
| `GoingBack.ReadsBesideAChange` | pkg/stream/listener/listener.go:61-63 | In any reachable state with the lock free and the snapshot computed, a call can take the lock and change the map, and a whole read then goes through while it holds the lock and returns the map before the change: reads do not wait for writers. |
| `GoingBack.DeletionLetsReadsGoBack` | pkg/stream/listener/listener.go:154-160 | One such run, in which a deleted policy is gone from one read and back in a later one. |
| `FanOut.WaitPassesIffRoomForAll` | pkg/stream/sender/sender.go:75-97 | With n streams and capacity k some run passes the wait if and only if n <= k, and a caller that returns has drained exactly n results. |
| `FanOut.NeverSendsOnClosed` | pkg/stream/sender/sender.go:87-88 | Once the channel is closed every worker is gone. |
| `FanOut.UnbufferedBlocksForever` | pkg/stream/sender/sender.go:76 | With the code's unbuffered channel and a stream, every run leaves all workers and the caller where they began. |
| `FanOut.CanGoOn` | pkg/stream/sender/sender.go:80-96 | With room for all, no state short of the caller's return is stuck. |
| `FanOut.RunsToReturn` | pkg/stream/sender/sender.go:80-96 | With room for all, every reachable state can be run to the caller's return. |
| `Listener.PolicyListener.constructor` | pkg/stream/listener/listener.go:37-59 | A new listener has no policies and a closure that says so. |
| `Listener.PolicyListener.ProcessPolicy` | pkg/stream/listener/listener.go:144-172 | A deletion removes the name; a received policy that is well typed is stored under it as compiled, every other name staying; one that is not changes nothing; the closure never shows an older map. |
| `Listener.PolicyListener.CompiledPolicies` | pkg/stream/listener/listener.go:61-63 | Returns the sorted view of the map and leaves the map alone. |
| `Listener.NameByName` | pkg/stream/listener/listener.go:154-171 | What any message sequence leaves under a name depends only on that name's own messages. |
| `Listener.LastWordIs` | pkg/stream/listener/listener.go:154-171 | A name is present if and only if a compilable store follows its last deletion, or it was there and nothing deleted it; its value is the last such compile. |
| `Listener.DeliveryOrderIrrelevantAcrossNames` | pkg/stream/listener/listener.go:134 | Interleavings with equal per-name subsequences give equal maps. |
| `Races.FinalDecides` | pkg/stream/listener/listener.go:154-171 | What messages leave under a name is what the last one that acts on it leaves: a deletion, or a store that compiles. |
| `Races.SameEffectIff` | pkg/stream/listener/listener.go:154-171 | Two message sequences change every map alike if and only if they leave the same under every name. |
| `Races.OrderIrrelevantIff` | pkg/stream/listener/listener.go:134 | Whatever the map, every order of the messages gives the same map if and only if no two that act on one name leave different things. |
| `Races.OvertakesIff` | pkg/stream/listener/listener.go:134 | Applying one message in flight before the others gives the same map as the order of arrival if and only if it does not act, or without it nothing acts on its name, or the last word there is the same. |
| `Races.LosesIff` | pkg/stream/sender/sender.go:179-190 | Losing a message in flight gives the same map if and only if it does not act, the last word on its name is the same without it, or nothing else acts and the map has its effect already. |
| `Races.RepeatsIff` | pkg/stream/sender/sender.go:179-190 | Repeating a message gives the same map if and only if it does not act or has the last word on its name. |
| `Races.InOrderMayOvertake` | pkg/stream/listener/listener.go:134 | Delivery in order for each name meets that condition. |
| `Races.ReversedStores` | pkg/stream/listener/listener.go:134 | A racing pair: two versions of one policy, delivered in reverse, leave the first. |
| `Sender.PolicySender.constructor` | pkg/stream/sender/sender.go:39-62 | The sender starts empty whatever external policies it is given. |
| `Sender.PolicySender.StorePolicy` | pkg/stream/sender/sender.go:99-113 | Stores the message under its name, keeps the rest; the closure never shows an older map. |
| `Sender.PolicySender.DeletePolicy` | pkg/stream/sender/sender.go:115-127 | Removes the name, keeps the rest; the closure never shows an older map. |
| `Sender.PolicySender.OnStreamRequest` | pkg/stream/sender/sender.go:165-174 | Sends the whole sorted view and makes the stream the client's connection; other connections stay. |
| `Sender.PolicySender.HealthCheck` | pkg/stream/sender/sender.go:129-139 | A valid heartbeat is recorded unless a later one is known; an invalid one changes nothing and gets no response. |
| `Sender.PolicySender.DeleteInactive` | pkg/stream/sender/sender.go:192-201 | Removes from both maps exactly the clients whose recorded heartbeat is too old. |
| `Sender.PolicySender.GetInactiveClients` | pkg/stream/sender/sender.go:203-211 | Lists exactly those clients. |
| `Monitor.RecordsTheLatest` | pkg/stream/sender/sender.go:134-137 | In every run the recorded time is the maximum heartbeat since the last eviction, whatever the arrival order. |
| `Monitor.RecentHeartbeatSurvives` | pkg/stream/sender/sender.go:205-208 | A client with some handled heartbeat recent enough at a sweep stays in both maps. |
| `Monitor.NeverEvictedWhileBeating` | pkg/stream/sender/sender.go:192-211 | If that holds at every sweep of a run, a registered client is registered at its end. |
| `Monitor.SilentClientLeaves` | pkg/stream/sender/sender.go:64-73 | A silent client is out of both maps once the clock passes its recorded heartbeat plus the allowed inactivity plus one flush interval, or one interval after now if that time has already passed. |
| `Monitor.NeverBeatingNeverLeaves` | pkg/stream/sender/sender.go:203-211 | A client that registers and never sends a heartbeat is never evicted. |
| `Monitor.HeartbeatsDoNotReconnect` | pkg/stream/sender/sender.go:129-139 | An evicted client stays unregistered, whatever heartbeats it sends, until it registers again. |
| `Distribution.InitialIsSafe` | pkg/stream/sender/sender.go:49-56 | The empty start satisfies the safety invariant. |
| `Distribution.StepKeepsSafe` | pkg/stream/sender/sender.go:75-177 | Store, delete, broadcast to a client at any later time, snapshot, connect, evict, deliver in any order, duplicate and lose keep every policy and message genuine. |
| `Distribution.OnlyGenuinePolicies` | pkg/stream/listener/listener.go:144-172 | In every run what a client holds under a name is the compiled form of a message once stored under that name. |
| `Distribution.SnapshotOverrides` | pkg/stream/sender/sender.go:166-171 | A snapshot applied in any order sets each name it can compile and leaves every other name alone. |
| `Distribution.Resynchronises` | pkg/stream/listener/listener.go:65-77 | After a registration the map is the old map overridden by the compiled snapshot; it is the control plane's map if and only if no other name was there. |
| `Distribution.HarmlessIff` | pkg/stream/listener/listener.go:134 | A delivery, duplication or loss leaves a client on its way to the same map if and only if it is harmless, a condition on the messages in flight and, for a loss, the map. |
| `Distribution.SettledFollows` | pkg/stream/listener/listener.go:144-172 | As long as deliveries are harmless, whatever compiles, a client's map and what is in flight to it come to its first map changed by all it was told. |
| `Distribution.SomeOrder` | pkg/stream/listener/listener.go:134 | With nothing lost or duplicated and any overtaking, what a client has applied and what is in flight are together what was in flight and was said. |
| `Distribution.EveryOrder` | pkg/stream/listener/listener.go:134 | The messages in flight can be delivered in every order. |
| `Distribution.ChangeSetsApart` | pkg/stream/sender/sender.go:99-127 | A change sets a name apart for a client if and only if it compiles to something else than the client is on its way to; other names are not affected. |
| `Distribution.TellBringsTogether` | pkg/stream/sender/sender.go:75-85 | A message told to a client leaves its name apart if and only if it acts and compiles to something else than the control plane has, or does not act and the name was apart. |
| `Distribution.SnapshotBringsTogether` | pkg/stream/sender/sender.go:166-171 | A snapshot overrides what the client is on its way to; apart are then exactly the names it holds and the snapshot does not cover. |
| `Distribution.IdleClientsAgree` | pkg/stream/sender/sender.go:165-174 | In any state, a client with nothing in flight holds the control plane's compiled map if and only if no name is apart. |
| `Distribution.FreshClientJoins` | pkg/stream/sender/sender.go:166-174 | A fresh client that takes its snapshot is in step with the control plane. |
| `Distribution.ChangeInTheGap` | pkg/stream/sender/sender.go:166-174 | A change that falls between a snapshot and the registration and is not told sets its name apart if and only if it compiles to something else than the client had or got by the snapshot, reconnecting clients included. |
| `Distribution.ApartStays` | pkg/stream/sender/sender.go:141-177 | Through harmless deliveries a name stays apart, or together, until it is changed, the client is told of it, or takes another snapshot. |
| `Distribution.SenderFollows` | pkg/stream/sender/sender.go:99-127 | In every run the sender's map is the changes applied in the order they were made. |
| `Distribution.UnregisteredIsNotTold` | pkg/stream/sender/sender.go:75-85 | A client that is not registered and neither registers nor takes a snapshot is told nothing and stays unregistered, whatever else happens. |
| `Distribution.TellingOpensAndEnds` | pkg/stream/sender/sender.go:192-201 | A client can be told nothing right after its eviction, and right after it registers exactly the messages broadcast so far. |
| `Distribution.ToldClientsConverge` | pkg/stream/sender/sender.go:75-85 | A client in step at the start and told messages with the effect of the changes agrees, once idle after harmless deliveries, on every name whose stored version compiles and every name not stored; it holds exactly the compiled map if and only if it kept nothing under a name whose stored version does not compile. |
| `Distribution.AnyOrderConverges` | pkg/stream/listener/listener.go:134 | The same of broadcasts told and delivered in any order with nothing lost or duplicated, if no two changes race. |
| `Distribution.AgreesInAnyOrderIff` | pkg/stream/listener/listener.go:134 | Every order of the changes leads a map to the control plane's compiled map if and only if no two race and the order in which they were made does. |
| `Reconcilers.StandaloneReconciler.constructor` | pkg/engine/vpol/provider/standalone.go:27-37 | Starts with no policies. |
| `Reconcilers.StandaloneReconciler.Reconcile` | pkg/engine/vpol/provider/standalone.go:52-84 | Not found removes "/name"; any other error changes nothing and asks for a retry; a well-typed policy is stored under "/name" as compiled, every other name staying; one that is not changes nothing. |
| `Reconcilers.StandaloneReconciler.CompiledPolicies` | pkg/engine/vpol/provider/standalone.go:86-88 | Returns the view of the map sorted on "/name". |
| `Reconcilers.MeshReconciler.Reconcile` | pkg/engine/vpol/provider/mesh.go:27-48 | What it leaves in the sender's map and what it hands to SendPolicy, for not found, other errors, a mode other than "HTTP", and "HTTP" policies. |
| `Routes.CompilesAfterTravel` | apis/v1alpha1/validating_policy.go:14-94 | A policy that has travelled compiles if and only if it did before, to the same program but for an unset failure policy. |
| `Routes.StandaloneIsDirect` | pkg/engine/vpol/provider/standalone.go:52-84 | After every event sequence the standalone map is, under "/name", the programs of the last accepted versions since their last deletions. |
| `Routes.SurvivingIs` | pkg/engine/vpol/provider/standalone.go:52-84 | A name survives with a version if and only if some event fetched that version, it is accepted, and no later event deletes the name or fetches another accepted version; the same counting "HTTP" versions only. |
| `Routes.HttpSurvives` | pkg/engine/vpol/provider/mesh.go:41-43 | The surviving HTTP versions differ from the surviving ones exactly under the names whose surviving version is in another mode. |
| `Routes.SidecarIsCarried` | pkg/engine/vpol/provider/mesh.go:27-48 | After every event sequence, whatever the modes, the listener's map is, under the name, the programs of the travelled last accepted HTTP versions since their last deletions. |
| `Routes.RoutesServeTheSamePolicies` | pkg/engine/vpol/provider/mesh.go:27-48 | After every event sequence, whatever the modes, the standalone map is the sidecar's under "/name" if and only if the same names survive and each surviving version compiles to what its last HTTP version compiles to after travelling; then both serve the same list, and if the same names survive, only then. |
| `Routes.HttpRoutesServeTheSame` | apis/v1alpha1/validating_policy.go:39-45 | With HTTP policies only, both routes serve equal lists if and only if every surviving policy sets failurePolicy. |
| `Routes.SidecarAnswer` | apis/v1alpha1/validating_policy.go:39-45 | For every request and whatever the modes, the sidecar answers as the last HTTP versions do without those that leave failurePolicy unset and err, the standalone server as the surviving versions do. |
| `Routes.RoutesGiveTheSameAnswer` | pkg/httpauth/handlers.go:57-71 | The answers agree if and only if neither route decides the request, or the two policies that answer have the same outcome. |
| `Routes.HttpRoutesGiveTheSameAnswer` | pkg/httpauth/handlers.go:57-71 | With HTTP policies only: if and only if no policy decides it in the standalone server, or the one that answers is not silenced, or the next decider that is not silenced has the very same outcome. |
| `Routes.CarriedOutcome` | apis/v1alpha1/validating_policy.go:14-94 | For every request a travelled policy has the outcome of the original, except that one with failurePolicy unset abstains where the original rejects an error. |
| `Routes.UnsetFailurePolicy` | website/docs/policies/failure-policy.md:12 | A policy with failurePolicy unset has the same outcome on both routes if and only if it raises no error on the request. |
| `Routes.ModeChangeParts` | pkg/engine/vpol/provider/mesh.go:41-43 | A policy that leaves HTTP mode is replaced in the standalone map while sidecars keep its last HTTP version; under its name the two agree if and only if there is one and it compiles to the same after travelling. |
| `EndToEnd.MeshHoldsLatest` | pkg/engine/vpol/provider/mesh.go:41-45 | Whatever the modes, the sender holds the last fetched HTTP version of each name; if it compiles it is the surviving one. |
| `EndToEnd.CompiledMeshMap` | pkg/engine/vpol/provider/mesh.go:27-48 | A snapshot has under a name what a client connected from the start has if and only if the name is not broken: its last HTTP version does not compile while an earlier one does. Then it has nothing. |
| `EndToEnd.SidecarAppliesBroadcasts` | pkg/engine/vpol/provider/mesh.go:32-46 | The sidecar's map is the broadcasts of the events applied in turn. |
| `EndToEnd.ConnectedMapFollows` | pkg/stream/listener/listener.go:123-172 | An idle client that started empty holds the sidecar's map after the events, through any run of harmless deliveries, if and only if what it was told leaves under every name what the broadcasts leave. |
| `EndToEnd.ConnectedSidecarsServe` | pkg/stream/sender/sender.go:141-177 | Told so, it serves the standalone list if and only if the routes meet, and otherwise the answers of the last HTTP versions without the silenced ones. |
| `EndToEnd.AnyOrderServes` | pkg/stream/listener/listener.go:134 | Broadcasts of which no two race, told and delivered in any order with nothing lost or duplicated, leave the sidecar's map. |
| `EndToEnd.SidecarsAgreeInAnyOrderIff` | pkg/stream/listener/listener.go:134 | Every complete delivery of the broadcasts, told in order and applied as the goroutines happen to run, leaves the sidecar's map if and only if no two of them race. |
| `EndToEnd.SidecarKeepsTheOld` | pkg/stream/listener/listener.go:134 | Two versions stored in succession: a run told in order that leaves a sidecar with the first. |
| `EndToEnd.LateSidecarsServe` | pkg/stream/sender/sender.go:165-174 | A client that takes its snapshot between two sequences of events has, once idle, the map of one connected from the start without the names it missed: broken before, and neither deleted nor stored anew in a version that compiles after. The maps are equal if and only if it missed none, and the answers if and only if the policy that answers is not among them or the next in line has the same outcome. |
| `EndToEnd.LateSidecarHasNothing` | pkg/stream/listener/listener.go:163-167 | A version that compiles, one that does not, then a client connects: it has nothing where the standalone server and earlier clients serve the first. |
| `EndToEnd.StandaloneAnswersAsWritten` | pkg/httpauth/handlers.go:57-71 | After any events the standalone server gives a request on which the surviving policies run quietly the answer of these policies as written, least deciding name first. |
| `EndToEnd.StandaloneWrites` | pkg/httpauth/handlers.go:60-71 | After any events, on a request on which the surviving policies run quietly: if one of them answers with a response as written and every one whose name comes before is silent, that very response is written. |
| `EndToEnd.SidecarAnswersAsWritten` | pkg/httpauth/handlers.go:57-71 | A sidecar gives it the answer of the last HTTP versions as written without those that leave failurePolicy unset and, as written, err. |
| `EndToEnd.SidecarWrites` | pkg/httpauth/handlers.go:60-71 | A sidecar writes it likewise, where a policy with failurePolicy unset is silent also when it errs. |

## Left out

- Decisions.PolicyDecides: unique variable names are the schema's demand (pkg/data/crds/policies.kyverno.io_validatingpolicies.yaml:707-710). A quiet run is exactly one whose memo keeps showing the reference values, but a run that is not quiet can still give the right answer, when what was changed is not read again or happens to be read to the same effect.
- Decisions.RunRefines: the same.
- Decisions.ErrorsAsWritten: the same.
- Reference.EvalRefines: the same; without the condition it is false (`Departures.SharedBuildersLeak`).
- EndToEnd.StandaloneAnswersAsWritten: inherits both conditions, as does `EndToEnd.SidecarAnswersAsWritten`.
- Outcomes.RuleDecides: inherits the conditions of `Decisions.PolicyDecides`, as do the other laws of `Outcomes` about a policy's outcome.
- EndToEnd.StandaloneWrites: the same, as for `EndToEnd.SidecarWrites`.
- EndToEnd.ConnectedSidecarsServe: says of a delivery that is not harmless only what `Distribution.OnlyGenuinePolicies` and `EndToEnd.SidecarsAgreeInAnyOrderIff` say.
- Distribution.SettledFollows: harmless deliveries only; by `Distribution.HarmlessIff` any other one changes what the client is on its way to.
- Distribution.ToldClientsConverge: a broadcast that a blocked or failing SendPolicy never puts in flight is one the client is not told.
- Routes.RoutesServeTheSamePolicies: the policy fetched for a name has that name, as the API server returns it. If different names survive, equal lists are not excluded, when different policies happen to compile to the same.
- Monitor.SilentClientLeaves: sweeps run at most one flush interval apart; the time a sweep itself takes is not counted.
- Sender.PolicySender.OnStreamRequest: each sender method is one step; the unlocked reads of the map and the unlocked heartbeat map are not interleaved. The view is handed to goroutines, which `Distribution` treats as messages in flight.
- Listener.PolicyListener.ProcessPolicy: one call at a time; interleaving is in `Cache`.
- Headers.WriteHeaders: net/http panics on an invalid status code; canonicalisation is an arbitrary function.
- Compiler.Compile: errors carry section, index and reason, not the text; internal errors of building the environment do not occur.
- Memory: plain field reads are sequentially consistent; Go's memory model for racing reads is not modelled.
- CEL: parser, checker and evaluator are external. The fragment has no `dyn()`, comprehensions, `cel.bind`, lists, maps, arithmetic or comparison of responses; a text that does not parse counts as one that does not check. The checker is taken to join null and response to response. Response fields other than the status are not read.
- Foreign calls (`http`, `resource`) and pure library calls (headers, `jwt`, strings) are values or errors fixed for one request, with `Foreign` available to rules only. `image` is declared and never bound by the code.
- Kubernetes' lazy map value: taken as evaluated on first access and then remembered, errors included.
- Go integers: status codes are unbounded integers here.
- A nil evaluation configuration, on which the mesh reconciler would panic.
- How several errors are joined into one text; logging; retry durations and backoff; that a retry may itself never return.
- gRPC, dialling, TLS, HTTP servers, signals, probes, context cancellation and command lines.
- Policies from files (pkg/engine/providers/fs.go), the admission handlers, the validator and sidecar injection: they would only add easy members.

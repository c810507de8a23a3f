# Endpoint set of the book-comments service

This project models the endpoint set of the book-comments service (Go package `svc`, the code in
`bookcomments-service/svc/endpoints.go`). The `Endpoints` record holds one go-kit endpoint per RPC
operation: `PostEndpoint` and `GetEndpoint`. An endpoint is a function from a context and a request
to a `(response, err)` pair. A middleware is a function from endpoint to endpoint.

The record supports two bulk decorations:

- `WrapAllExcept(middleware, excluded...)` first checks every excluded name against the fixed set
  {"Post", "Get"}, deleting each name it finds. A name that is missing panics. That is either an
  unknown name, or a name already deleted by an earlier occurrence. The call then replaces every
  slot still included with `middleware(slot)`, in place. It visits the included names in Go's
  unspecified map order.
- `WrapAllLabeledExcept(middleware, excluded...)` does the same, except that the middleware also
  receives the slot's name.

Around these sit the `Post`/`Get` accessors and the `MakePostEndpoint`/`MakeGetEndpoint` adapters.
Each one calls an underlying function and then either propagates its error with a nil response or
returns its response with a nil error.

Everything is in `endpoints.dfy`, in module `Svc`:

- Endpoints, middlewares and labeled middlewares are Dafny total functions. The context, the
  messages and the errors are opaque datatypes.
- `Endpoints` is a class with the two slots as fields. `State()` gives their value as a `Snapshot`.
- The two wrapping methods follow the Go code's two loops. The first loop deletes each excluded
  name from an `included` set, as the Go code deletes from its map. The second loop differs from
  Go: Go's `range` visits the map and deletes nothing, while the model uses the set as a
  worklist. It picks an arbitrary remaining name with `:|` and removes it once visited. A ghost
  sequence records the order the loop took.
- Each method is proved against a specification function: `AfterWrapAllExcept` or
  `AfterWrapAllLabeledExcept`. The result is `Ok(new value)`, or `Panic(name)` with the slots
  untouched.
- The lemmas state what that specification means, in closed form:
  - which exclusion lists succeed;
  - which name a panic reports;
  - what each slot becomes;
  - that the iteration order does not matter.
- `AfterWrapAllExcept` is defined as the labeled operation run with a middleware that ignores its
  label. The two operations therefore share one definition of the exclusion and failure rules.

## Model

| member | source | states |
|---|---|---|
| Svc.Propagate | bookcomments-service/svc/endpoints.go:64-67 | the result carries the call's error unchanged; with an error the response is nil, otherwise it is the call's response |
| Svc.PropagateFixesExactlyWellFormed | bookcomments-service/svc/endpoints.go:42-56 | propagation leaves a reply unchanged exactly when that reply has no response beside an error, always yields such a reply, and is idempotent |
| Svc.MakePostEndpoint | bookcomments-service/svc/endpoints.go:60-69 | for every context and request, the adapter returns the server's Post error unchanged with a nil response, or the server's response with no error |
| Svc.MakeGetEndpoint | bookcomments-service/svc/endpoints.go:71-80 | the same for the server's Get operation |
| Svc.Validate | bookcomments-service/svc/endpoints.go:93-98 | the validation loop: it panics on the first excluded name missing from `included` and otherwise deletes it; a success leaves a subset of `included`, and a panic names an excluded entry (closed form in ValidateSucceedsIff and ValidatePanicIsFirstOffender) |
| Svc.WrapSlot | bookcomments-service/svc/endpoints.go:101-106 | one iteration of the wrapping loop for a name wraps exactly the slot with that name, once, labeled with that name, and leaves the other slot alone |
| Svc.AfterWrapAllLabeledExcept | bookcomments-service/svc/endpoints.go:119-140 | the outcome of the labeled wrap: a panic names an excluded entry; a success wraps exactly the slots whose names are not excluded, each with its own name (which lists succeed: WrapAllLabeledExceptSucceedsIff) |
| Svc.AfterWrapAllExcept | bookcomments-service/svc/endpoints.go:87-108 | the outcome of the plain wrap: a panic names an excluded entry; a success leaves excluded slots as they were and applies the middleware once to each other slot (which lists succeed: WrapAllExceptSucceedsIff; which names panic: UnknownExclusionPanics, RepeatedExclusionPanics) |
| Svc.Endpoints.constructor | bookcomments-service/svc/endpoints.go:35-38 | a record holds exactly the two endpoints it is built from |
| Svc.Endpoints.Post | bookcomments-service/svc/endpoints.go:42-48 | the accessor returns the Post slot's error unchanged with a nil response, or the slot's response with no error |
| Svc.Endpoints.Get | bookcomments-service/svc/endpoints.go:50-56 | the same for the Get slot |
| Svc.AccessorOverAdapter | bookcomments-service/svc/endpoints.go:42-80 | an accessor over an adapter-built slot returns exactly the propagated server reply, so the second propagation adds nothing |
| Svc.Endpoints.WrapAllExcept | bookcomments-service/svc/endpoints.go:87-108 | on a bad exclusion list the method panics with the offending name and both slots keep their old values; otherwise the new slots are exactly those of the specification, whatever order the loop takes |
| Svc.Endpoints.WrapAllLabeledExcept | bookcomments-service/svc/endpoints.go:119-140 | the same for the labeled middleware |
| Svc.ValidateSucceedsIff | bookcomments-service/svc/endpoints.go:93-98 | the validation loop succeeds if and only if every excluded name is in the included set and no name repeats; it then leaves the included names minus the excluded ones |
| Svc.ValidatePanicIsFirstOffender | bookcomments-service/svc/endpoints.go:93-97 | a panic names an excluded entry whose predecessors all validated, and that entry is either unknown or already deleted |
| Svc.WrapAllExceptSucceedsIff | bookcomments-service/svc/endpoints.go:87-98 | WrapAllExcept succeeds if and only if all excluded names are "Post" or "Get" and none repeats |
| Svc.WrapAllLabeledExceptSucceedsIff | bookcomments-service/svc/endpoints.go:119-130 | the labeled operation succeeds on exactly the same exclusion lists |
| Svc.WrapAllExceptWrapsNonExcluded | bookcomments-service/svc/endpoints.go:87-108 | with a valid list, each non-excluded slot becomes one application of the middleware to its old value, and each excluded slot is unchanged |
| Svc.WrapAllLabeledExceptWrapsNonExcluded | bookcomments-service/svc/endpoints.go:119-139 | the same for the labeled operation; the Post slot gets the label "Post" and the Get slot the label "Get" |
| Svc.UnknownExclusionPanics | bookcomments-service/svc/endpoints.go:93-96 | any excluded name other than "Post" or "Get" makes the operation panic |
| Svc.RepeatedExclusionPanics | bookcomments-service/svc/endpoints.go:94-97 | excluding a name twice makes the operation panic |
| Svc.NoExclusionsWrapsBoth | bookcomments-service/svc/endpoints.go:88-107 | with no exclusions both slots are wrapped once each |
| Svc.SuccessiveWrapsNest | bookdetails-service/handlers/middlewares.go:17-18 | after two full wraps, the middleware applied last is the outermost on each slot |
| Svc.WrapSlotThenIncluded | bookcomments-service/svc/endpoints.go:100-107 | one loop iteration for a name composes with wrapping a disjoint set of names into wrapping their union |
| Svc.WrapInOrderSnoc | bookcomments-service/svc/endpoints.go:100-107 | running the loop over an order extended by one name equals one more iteration |
| Svc.WrapInOrderMatchesIncluded | bookcomments-service/svc/endpoints.go:100-107 | running the loop over any repeat-free order wraps exactly the slots whose names occur in it, each once |
| Svc.WrapOrderIrrelevant | bookcomments-service/svc/endpoints.go:100-107 | two repeat-free orders of the same names give the same record |

## Left out

- Go type assertions are not modelled (`request.(*pb.PostReq)` in the adapters, `response.(*pb.PostResp)` in the accessors). Messages are one opaque type, so a mistyped request or response cannot arise.
- Svc.Endpoints.Post: when the slot returns neither a response nor an error, Go's type assertion on the nil response would panic. The model returns an empty reply instead.
- Svc.Endpoints.Get: the same. When the Get slot returns neither a response nor an error, Go's `response.(*pb.GetResp)` would panic, and the model returns an empty reply.
- The panic is modelled as the method returning `Some(name)` with the record unchanged. Go's stack unwinding, and any `recover` by a caller, are not modelled. The text of the panic message is left out; only the offending name is kept.
- `context.Context` is an opaque value. Deadlines and cancellation are not modelled.
- The `pb.BookCommentsServer` business logic and the protobuf types are opaque: the server is a pair of arbitrary functions.
- Middleware equality is equality of functions. Nothing is said about what a particular middleware does when called.
- Svc.WrapOrderIrrelevant: holds only because middlewares are modelled as effect-free functions. Effects that a Go middleware has *when it is applied* are not modelled, such as bumping a counter, creating per-call state, or registering a metric per label. With such a middleware, Go's random map order decides which slot is wrapped first. For example, a middleware that numbers the endpoints it wraps could give Post #1 on one run and #2 on another. The same assumption underlies the order-independence stated by Svc.Endpoints.WrapAllExcept and Svc.Endpoints.WrapAllLabeledExcept.
- Nil function values are not modelled. Dafny's total functions cannot be nil. In Go, a zero-value `Endpoints` with nil slots panics when an accessor calls the slot, and a nil middleware panics when a wrapping operation applies it.
- `WrapEndpoints` and `WrapService` in the details service are not modelled. They only chain library middlewares whose code is not part of this model: logging, Zipkin tracing, go-kit's rate limiter over `golang.org/x/time/rate`, go-kit's circuit breaker over `sony/gobreaker`, and Prometheus instrumenting. The token bucket and the breaker's state machine are therefore not modelled either.
- The record has exactly two fixed fields. There is no registration of names, no operation that wraps one named slot, and no dispatch by name. A single slot is wrapped by assigning its field directly (`in.ExampleEndpoint = authMiddleware(in.ExampleEndpoint)` in the comment at bookdetails-service/handlers/middlewares.go:34). That is plain field assignment and needs no model.
- The code panics on a repeated excluded name as well as on an unknown one. The model follows the code.
- Concurrency is not modelled. The record is mutated only during single-threaded startup, and endpoints are later called concurrently.

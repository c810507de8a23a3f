/**
 A model of the endpoint set of the book-comments service (Go package `svc`).

 Every RPC operation is an endpoint: a function from a context and a request
 message to a reply. A service exposes two of them, named "Post" and "Get",
 collected in the `Endpoints` record. Middlewares decorate endpoints by
 substitution: `WrapAllExcept` replaces every slot that is not excluded by
 name with `middleware(old slot)`, and `WrapAllLabeledExcept` does the same
 with a middleware that is also told the slot's name.
 */
module Svc {

  // ---------------------------------------------------------------------------
  // The call abstraction
  // ---------------------------------------------------------------------------

  datatype Option<T> = None | Some(value: T)

  /** An opaque stand-in for Go's `context.Context`; the model never inspects it. */
  datatype Context = Context(id: nat)

  /** An opaque request or response message (Go's `interface{}` payloads). */
  datatype Message = Message(body: string)

  /** An opaque error value. */
  datatype Error = Error(text: string)

  /** The pair `(response, err)` an endpoint returns; `None` stands for Go's `nil`. */
  datatype Reply = Reply(response: Option<Message>, err: Option<Error>)

  /** go-kit's `endpoint.Endpoint`. */
  type Endpoint = (Context, Message) -> Reply

  /** go-kit's `endpoint.Middleware`. */
  type Middleware = Endpoint -> Endpoint

  /** The source's `LabeledMiddleware`: a middleware that also receives the endpoint's name. */
  type LabeledMiddleware = (string, Endpoint) -> Endpoint

  /**
   The business-logic server behind the endpoints (`pb.BookCommentsServer`),
   reduced to its two operations.
   */
  datatype Server = Server(post: Endpoint, get: Endpoint)

  /** A reply in which an error is never accompanied by a response. */
  predicate WellFormed(r: Reply) {
    r.err.Some? ==> r.response.None?
  }

  /**
   The call-and-propagate step shared by the accessors and the adapters:
   on an error, return that error with a nil response; otherwise return the
   response with a nil error.
   */
  function Propagate(r: Reply): (p: Reply)
    ensures p.err == r.err
    ensures p.err.Some? ==> p.response.None?
    ensures p.err.None? ==> p.response == r.response
  {
    if r.err.Some? then Reply(None, r.err) else Reply(r.response, None)
  }

  /** Propagation changes exactly the replies that are not well formed. */
  lemma PropagateFixesExactlyWellFormed(r: Reply)
    ensures Propagate(r) == r <==> WellFormed(r)
    ensures WellFormed(Propagate(r))
    ensures Propagate(Propagate(r)) == Propagate(r)
  {
  }

  /** `MakePostEndpoint`: forwards a request to the server's Post operation. */
  function MakePostEndpoint(s: Server): (ep: Endpoint)
    ensures forall ctx, req :: ep(ctx, req).err == s.post(ctx, req).err
    ensures forall ctx, req :: ep(ctx, req).err.Some? ==> ep(ctx, req).response.None?
    ensures forall ctx, req ::
      ep(ctx, req).err.None? ==> ep(ctx, req).response == s.post(ctx, req).response
  {
    (ctx: Context, req: Message) => Propagate(s.post(ctx, req))
  }

  /** `MakeGetEndpoint`: forwards a request to the server's Get operation. */
  function MakeGetEndpoint(s: Server): (ep: Endpoint)
    ensures forall ctx, req :: ep(ctx, req).err == s.get(ctx, req).err
    ensures forall ctx, req :: ep(ctx, req).err.Some? ==> ep(ctx, req).response.None?
    ensures forall ctx, req ::
      ep(ctx, req).err.None? ==> ep(ctx, req).response == s.get(ctx, req).response
  {
    (ctx: Context, req: Message) => Propagate(s.get(ctx, req))
  }

  // ---------------------------------------------------------------------------
  // The endpoint set and the specification of bulk wrapping
  // ---------------------------------------------------------------------------

  const PostName: string := "Post"
  const GetName: string := "Get"

  /** The names the `included` map starts with. */
  const Names: set<string> := {PostName, GetName}

  /** The value of an `Endpoints` record: its two slots. */
  datatype Snapshot = Snapshot(post: Endpoint, get: Endpoint)

  /** The outcome of a wrapping request: the new value, or a panic naming an excluded name. */
  datatype Result<T> = Ok(value: T) | Panic(name: string)

  function Elems(s: seq<string>): set<string> {
    set x | x in s
  }

  predicate NoRepeats(s: seq<string>) {
    forall i, j :: 0 <= i < j < |s| ==> s[i] != s[j]
  }

  /**
   The validation loop: each excluded name must still be in `included`, and
   is deleted from it; the first name that is missing causes a panic.
   */
  function Validate(excluded: seq<string>, included: set<string>): (r: Result<set<string>>)
    ensures r.Ok? ==> r.value <= included
    ensures r.Panic? ==> r.name in excluded
    decreases |excluded|
  {
    if excluded == [] then Ok(included)
    else if excluded[0] !in included then Panic(excluded[0])
    else Validate(excluded[1..], included - {excluded[0]})
  }

  /** One iteration of the wrapping loop for the name `inc`. */
  function WrapSlot(s: Snapshot, middleware: LabeledMiddleware, inc: string): (r: Snapshot)
    ensures r == WrapIncluded(s, middleware, {inc})
  {
    var s' := if inc == PostName then s.(post := middleware(PostName, s.post)) else s;
    if inc == GetName then s'.(get := middleware(GetName, s'.get)) else s'
  }

  /** The wrapping loop run over the names of `order`, in that order. */
  function WrapInOrder(s: Snapshot, middleware: LabeledMiddleware, order: seq<string>): Snapshot
    decreases |order|
  {
    if order == [] then s else WrapInOrder(WrapSlot(s, middleware, order[0]), middleware, order[1..])
  }

  /** Reference definition: every slot whose name is in `included` is wrapped once, with its name. */
  function WrapIncluded(s: Snapshot, middleware: LabeledMiddleware, included: set<string>): Snapshot {
    Snapshot(
      if PostName in included then middleware(PostName, s.post) else s.post,
      if GetName in included then middleware(GetName, s.get) else s.get)
  }

  /** What `WrapAllLabeledExcept` does to a record with value `s`. */
  function AfterWrapAllLabeledExcept(s: Snapshot, middleware: LabeledMiddleware, excluded: seq<string>)
    : (r: Result<Snapshot>)
    ensures r.Panic? ==> r.name in excluded
    ensures r.Ok? ==> r.value == WrapIncluded(s, middleware, Names - Elems(excluded))
  {
    ValidateSucceedsIff(excluded, Names);
    match Validate(excluded, Names)
    case Panic(n) => Panic(n)
    case Ok(included) => Ok(WrapIncluded(s, middleware, included))
  }

  /** A plain middleware seen as a labeled one that ignores the label. */
  function IgnoreLabel(middleware: Middleware): LabeledMiddleware {
    (name: string, ep: Endpoint) => middleware(ep)
  }

  /** What `WrapAllExcept` does to a record with value `s`. */
  function AfterWrapAllExcept(s: Snapshot, middleware: Middleware, excluded: seq<string>): (r: Result<Snapshot>)
    ensures r.Panic? ==> r.name in excluded
    ensures r.Ok? ==> r.value == Snapshot(
      if PostName in excluded then s.post else middleware(s.post),
      if GetName in excluded then s.get else middleware(s.get))
  {
    AfterWrapAllLabeledExcept(s, IgnoreLabel(middleware), excluded)
  }

  // ---------------------------------------------------------------------------
  // Properties of the specification
  // ---------------------------------------------------------------------------

  lemma ElemsCons(x: string, rest: seq<string>)
    ensures Elems([x] + rest) == {x} + Elems(rest)
  {
  }

  lemma NoRepeatsCons(x: string, rest: seq<string>)
    ensures NoRepeats([x] + rest) <==> x !in rest && NoRepeats(rest)
  {
    var s := [x] + rest;
    if NoRepeats(s) {
      forall i, j | 0 <= i < j < |rest| ensures rest[i] != rest[j] {
        assert rest[i] == s[i + 1] && rest[j] == s[j + 1];
      }
      forall j | 0 <= j < |rest| ensures rest[j] != x {
        assert rest[j] == s[j + 1] && s[0] == x;
        assert s[0] != s[j + 1];
      }
    }
    if x !in rest && NoRepeats(rest) {
      forall i, j | 0 <= i < j < |s| ensures s[i] != s[j] {
        assert s[j] == rest[j - 1];
        if i > 0 {
          assert s[i] == rest[i - 1];
        }
      }
    }
  }

  /**
   Validation succeeds exactly when every excluded name is in `included` and
   no name is excluded twice; it then leaves the names that were not excluded.
   */
  lemma {:induction false} ValidateSucceedsIff(excluded: seq<string>, included: set<string>)
    ensures Validate(excluded, included).Ok? <==> Elems(excluded) <= included && NoRepeats(excluded)
    ensures Validate(excluded, included).Ok? ==>
      Validate(excluded, included).value == included - Elems(excluded)
    decreases |excluded|
  {
    if excluded != [] {
      var x, rest := excluded[0], excluded[1..];
      assert excluded == [x] + rest;
      ElemsCons(x, rest);
      NoRepeatsCons(x, rest);
      if x in included {
        ValidateSucceedsIff(rest, included - {x});
      }
    }
  }

  /**
   A panic names the first offending excluded name: every name before it was
   known and distinct, and it is either unknown or already deleted.
   */
  lemma {:induction false} ValidatePanicIsFirstOffender(excluded: seq<string>, included: set<string>, n: string)
    requires Validate(excluded, included) == Panic(n)
    ensures exists k :: (0 <= k < |excluded| && excluded[k] == n
      && Validate(excluded[..k], included) == Ok(included - Elems(excluded[..k]))
      && n !in included - Elems(excluded[..k]))
    decreases |excluded|
  {
    var x, rest := excluded[0], excluded[1..];
    if x !in included {
      assert excluded[..0] == [];
      assert Elems(excluded[..0]) == {};
      assert included - Elems(excluded[..0]) == included;
    } else {
      ValidatePanicIsFirstOffender(rest, included - {x}, n);
      var k :| 0 <= k < |rest| && rest[k] == n
        && Validate(rest[..k], included - {x}) == Ok(included - {x} - Elems(rest[..k]))
        && n !in included - {x} - Elems(rest[..k]);
      assert excluded[..k + 1] == [x] + rest[..k];
      ElemsCons(x, rest[..k]);
      var prefix := excluded[..k + 1];
      assert prefix[0] == x && prefix[1..] == rest[..k];
      assert included - {x} - Elems(rest[..k]) == included - Elems(prefix);
      assert Validate(prefix, included) == Ok(included - Elems(prefix));
      assert excluded[k + 1] == n;
    }
  }

  /** Both wrapping operations fail, or succeed, on exactly the same exclusion lists. */
  lemma WrapAllLabeledExceptSucceedsIff(s: Snapshot, middleware: LabeledMiddleware, excluded: seq<string>)
    ensures AfterWrapAllLabeledExcept(s, middleware, excluded).Ok? <==>
      Elems(excluded) <= Names && NoRepeats(excluded)
  {
    ValidateSucceedsIff(excluded, Names);
  }

  lemma WrapAllExceptSucceedsIff(s: Snapshot, middleware: Middleware, excluded: seq<string>)
    ensures AfterWrapAllExcept(s, middleware, excluded).Ok? <==>
      Elems(excluded) <= Names && NoRepeats(excluded)
  {
    ValidateSucceedsIff(excluded, Names);
  }

  /** With valid exclusions, each non-excluded slot is its old value wrapped once; the rest are unchanged. */
  lemma WrapAllExceptWrapsNonExcluded(s: Snapshot, middleware: Middleware, excluded: seq<string>)
    requires Elems(excluded) <= Names && NoRepeats(excluded)
    ensures AfterWrapAllExcept(s, middleware, excluded) == Ok(Snapshot(
      if PostName in excluded then s.post else middleware(s.post),
      if GetName in excluded then s.get else middleware(s.get)))
  {
    ValidateSucceedsIff(excluded, Names);
  }

  /** As above, and the label passed is the slot's own name. */
  lemma WrapAllLabeledExceptWrapsNonExcluded(s: Snapshot, middleware: LabeledMiddleware, excluded: seq<string>)
    requires Elems(excluded) <= Names && NoRepeats(excluded)
    ensures AfterWrapAllLabeledExcept(s, middleware, excluded) == Ok(Snapshot(
      if PostName in excluded then s.post else middleware(PostName, s.post),
      if GetName in excluded then s.get else middleware(GetName, s.get)))
  {
    ValidateSucceedsIff(excluded, Names);
  }

  /** An excluded name other than "Post" and "Get" makes the wrapping panic. */
  lemma UnknownExclusionPanics(s: Snapshot, middleware: Middleware, excluded: seq<string>, i: nat)
    requires i < |excluded| && excluded[i] !in Names
    ensures AfterWrapAllExcept(s, middleware, excluded).Panic?
  {
    ValidateSucceedsIff(excluded, Names);
  }

  /** Excluding the same name twice makes the wrapping panic: the second lookup misses. */
  lemma RepeatedExclusionPanics(s: Snapshot, middleware: Middleware, excluded: seq<string>, i: nat, j: nat)
    requires i < j < |excluded| && excluded[i] == excluded[j]
    ensures AfterWrapAllExcept(s, middleware, excluded).Panic?
  {
    ValidateSucceedsIff(excluded, Names);
  }

  /** With nothing excluded, both slots are wrapped once each. */
  lemma NoExclusionsWrapsBoth(s: Snapshot, middleware: Middleware)
    ensures AfterWrapAllExcept(s, middleware, []) == Ok(Snapshot(middleware(s.post), middleware(s.get)))
  {
  }

  /** Wrapping twice nests: the middleware applied last is the outermost. */
  lemma SuccessiveWrapsNest(s: Snapshot, first: Middleware, second: Middleware)
    ensures AfterWrapAllExcept(s, first, []).Ok?
    ensures AfterWrapAllExcept(AfterWrapAllExcept(s, first, []).value, second, []) ==
      Ok(Snapshot(second(first(s.post)), second(first(s.get))))
  {
  }

  /** Wrapping the slot named `x` first commutes with wrapping a set of other names. */
  lemma WrapSlotThenIncluded(s: Snapshot, middleware: LabeledMiddleware, x: string, rest: set<string>)
    requires x !in rest
    ensures WrapIncluded(WrapSlot(s, middleware, x), middleware, rest) == WrapIncluded(s, middleware, {x} + rest)
  {
  }

  /**
   Running the wrapping loop over any duplicate-free order of names wraps
   exactly the slots whose names occur, each once.
   */
  lemma {:induction false} WrapInOrderMatchesIncluded(s: Snapshot, middleware: LabeledMiddleware, order: seq<string>)
    requires NoRepeats(order)
    ensures WrapInOrder(s, middleware, order) == WrapIncluded(s, middleware, Elems(order))
    decreases |order|
  {
    if order == [] {
      assert Elems(order) == {};
    } else {
      var x, rest := order[0], order[1..];
      assert order == [x] + rest;
      ElemsCons(x, rest);
      NoRepeatsCons(x, rest);
      WrapInOrderMatchesIncluded(WrapSlot(s, middleware, x), middleware, rest);
      WrapSlotThenIncluded(s, middleware, x, Elems(rest));
    }
  }

  /** Appending a name to the order runs one more loop iteration. */
  lemma {:induction false} WrapInOrderSnoc(s: Snapshot, middleware: LabeledMiddleware, order: seq<string>, x: string)
    ensures WrapInOrder(s, middleware, order + [x]) == WrapSlot(WrapInOrder(s, middleware, order), middleware, x)
    decreases |order|
  {
    if order == [] {
      assert [] + [x] == [x] && [x][1..] == [];
    } else {
      assert (order + [x])[0] == order[0] && (order + [x])[1..] == order[1..] + [x];
      WrapInOrderSnoc(WrapSlot(s, middleware, order[0]), middleware, order[1..], x);
    }
  }

  lemma NoRepeatsSnoc(order: seq<string>, x: string)
    requires NoRepeats(order) && x !in order
    ensures NoRepeats(order + [x])
    ensures Elems(order + [x]) == Elems(order) + {x}
  {
  }

  /** The outcome of the wrapping loop does not depend on the iteration order over `included`. */
  lemma WrapOrderIrrelevant(s: Snapshot, middleware: LabeledMiddleware, order1: seq<string>, order2: seq<string>)
    requires NoRepeats(order1) && NoRepeats(order2) && Elems(order1) == Elems(order2)
    ensures WrapInOrder(s, middleware, order1) == WrapInOrder(s, middleware, order2)
  {
    WrapInOrderMatchesIncluded(s, middleware, order1);
    WrapInOrderMatchesIncluded(s, middleware, order2);
  }

  // ---------------------------------------------------------------------------
  // The record itself
  // ---------------------------------------------------------------------------

  /** The `Endpoints` struct; the wrapping methods update it through a pointer receiver. */
  class Endpoints {
    var postEndpoint: Endpoint
    var getEndpoint: Endpoint

    constructor (post: Endpoint, get: Endpoint)
      ensures postEndpoint == post && getEndpoint == get
    {
      postEndpoint := post;
      getEndpoint := get;
    }

    /** All the state of the record. */
    function State(): Snapshot
      reads this
    {
      Snapshot(postEndpoint, getEndpoint)
    }

    /** The `Post` accessor: calls the Post slot and propagates its error or its response. */
    function Post(ctx: Context, req: Message): (r: Reply)
      reads this
      ensures r.err == postEndpoint(ctx, req).err
      ensures r.err.Some? ==> r.response.None?
      ensures r.err.None? ==> r.response == postEndpoint(ctx, req).response
    {
      Propagate(postEndpoint(ctx, req))
    }

    /** The `Get` accessor: calls the Get slot and propagates its error or its response. */
    function Get(ctx: Context, req: Message): (r: Reply)
      reads this
      ensures r.err == getEndpoint(ctx, req).err
      ensures r.err.Some? ==> r.response.None?
      ensures r.err.None? ==> r.response == getEndpoint(ctx, req).response
    {
      Propagate(getEndpoint(ctx, req))
    }

    /**
     Wraps every slot not named in `excluded` with `middleware`. An excluded
     name that is unknown, or already deleted by an earlier occurrence, panics
     (modelled as `panicked == Some(name)`) before any slot is touched.
     */
    method WrapAllExcept(middleware: Middleware, excluded: seq<string>) returns (panicked: Option<string>)
      modifies this
      ensures match AfterWrapAllExcept(old(State()), middleware, excluded)
        case Panic(n) => panicked == Some(n) && State() == old(State())
        case Ok(t) => panicked == None && State() == t
    {
      var included: set<string> := {PostName, GetName};
      var i := 0;
      while i < |excluded|
        invariant 0 <= i <= |excluded|
        invariant Validate(excluded, Names) == Validate(excluded[i..], included)
        invariant State() == old(State())
      {
        var ex := excluded[i];
        assert excluded[i..][0] == ex && excluded[i..][1..] == excluded[i + 1..];
        if ex !in included {
          return Some(ex);
        }
        included := included - {ex};
        i := i + 1;
      }
      assert excluded[i..] == [];

      // The names are visited in an arbitrary order, as Go's map iteration does;
      // `order` records the order that was taken.
      ghost var start := State();
      ghost var toWrap := included;
      ghost var order: seq<string> := [];
      while included != {}
        invariant included <= toWrap
        invariant NoRepeats(order) && Elems(order) == toWrap - included
        invariant State() == WrapInOrder(start, IgnoreLabel(middleware), order)
        decreases included
      {
        var inc :| inc in included;
        WrapInOrderSnoc(start, IgnoreLabel(middleware), order, inc);
        NoRepeatsSnoc(order, inc);
        if inc == PostName {
          postEndpoint := middleware(postEndpoint);
        }
        if inc == GetName {
          getEndpoint := middleware(getEndpoint);
        }
        included := included - {inc};
        order := order + [inc];
      }
      WrapInOrderMatchesIncluded(start, IgnoreLabel(middleware), order);
      return None;
    }

    /**
     Like `WrapAllExcept`, but the middleware also receives the slot's name:
     "Post" for the Post slot and "Get" for the Get slot.
     */
    method WrapAllLabeledExcept(middleware: LabeledMiddleware, excluded: seq<string>)
      returns (panicked: Option<string>)
      modifies this
      ensures match AfterWrapAllLabeledExcept(old(State()), middleware, excluded)
        case Panic(n) => panicked == Some(n) && State() == old(State())
        case Ok(t) => panicked == None && State() == t
    {
      var included: set<string> := {PostName, GetName};
      var i := 0;
      while i < |excluded|
        invariant 0 <= i <= |excluded|
        invariant Validate(excluded, Names) == Validate(excluded[i..], included)
        invariant State() == old(State())
      {
        var ex := excluded[i];
        assert excluded[i..][0] == ex && excluded[i..][1..] == excluded[i + 1..];
        if ex !in included {
          return Some(ex);
        }
        included := included - {ex};
        i := i + 1;
      }
      assert excluded[i..] == [];

      // The names are visited in an arbitrary order, as Go's map iteration does;
      // `order` records the order that was taken.
      ghost var start := State();
      ghost var toWrap := included;
      ghost var order: seq<string> := [];
      while included != {}
        invariant included <= toWrap
        invariant NoRepeats(order) && Elems(order) == toWrap - included
        invariant State() == WrapInOrder(start, middleware, order)
        decreases included
      {
        var inc :| inc in included;
        WrapInOrderSnoc(start, middleware, order, inc);
        NoRepeatsSnoc(order, inc);
        if inc == PostName {
          postEndpoint := middleware(PostName, postEndpoint);
        }
        if inc == GetName {
          getEndpoint := middleware(GetName, getEndpoint);
        }
        included := included - {inc};
        order := order + [inc];
      }
      WrapInOrderMatchesIncluded(start, middleware, order);
      return None;
    }
  }

  /** The accessor adds nothing to an endpoint built by an adapter: propagation is idempotent. */
  lemma AccessorOverAdapter(e: Endpoints, s: Server, ctx: Context, req: Message)
    requires e.postEndpoint == MakePostEndpoint(s) && e.getEndpoint == MakeGetEndpoint(s)
    ensures e.Post(ctx, req) == Propagate(s.post(ctx, req))
    ensures e.Get(ctx, req) == Propagate(s.get(ctx, req))
  {
  }
}

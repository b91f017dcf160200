/** The route table of src/modules/http/http_router.c (lines 23-204): registration, the cutting of a
    request line into method and path, and dispatch. The table is a bounded map that remembers the
    order in which its keys came. */
module HttpRouter {
  import opened Common

  const MAX_ROUTES: nat := 128

  /** The size of the path buffer in `http_router_dispatch`. */
  const PATH_SIZE: nat := 256

  /** `http_verbt`; `COUNT` stands for HTTP_METHOD_COUNT and anything beyond. */
  datatype Method = GET | POST | PUT | DELETE | COUNT

  /** A handler function, by its address. */
  type Handler = nat

  datatype Key = Key(verb: Method, path: string)

  /** `http_route_t`. */
  datatype Route = Route(
    path: string,
    verb: Method,
    handler: Handler,
    moduleName: string,
    description: Option<string>)

  /** The arguments of a registration; None is a null pointer. */
  datatype Registration = Registration(
    path: Option<string>,
    verb: Method,
    handler: Option<Handler>,
    moduleName: Option<string>,
    description: Option<string>)

  // ---- The table as a value ----

  datatype State = State(initialized: bool, routes: seq<Route>)

  function KeyOf(r: Route): Key {
    Key(r.verb, r.path)
  }

  function Keys(rs: seq<Route>): seq<Key> {
    seq(|rs|, i requires 0 <= i < |rs| => KeyOf(rs[i]))
  }

  /** The handler of the first route for a key. */
  function HandlerFor(rs: seq<Route>, key: Key): Option<Handler> {
    var k := IndexOf(Keys(rs), key);
    if k < |rs| then Some(rs[k].handler) else None
  }

  /** An existing route is replaced where it stands, a new one goes to the end. */
  function Put(rs: seq<Route>, r: Route): seq<Route> {
    var k := IndexOf(Keys(rs), KeyOf(r));
    if k < |rs| then rs[k := r] else rs + [r]
  }

  predicate Complete(r: Registration) {
    r.path.Some? && r.handler.Some? && r.moduleName.Some? && r.verb != COUNT
  }

  function RouteOf(r: Registration): Route
    requires Complete(r)
  {
    Route(r.path.value, r.verb, r.handler.value, r.moduleName.value, r.description)
  }

  /** A full table accepts nothing, not even a new handler for a key it has. */
  predicate Accepts(s: State, r: Registration) {
    s.initialized && Complete(r) && |s.routes| < MAX_ROUTES
  }

  function Register(s: State, r: Registration): State {
    if Accepts(s, r) then s.(routes := Put(s.routes, RouteOf(r))) else s
  }

  /** Registrations up to the first refused one, and whether none was. */
  function RegisterList(s: State, list: seq<Registration>): (State, bool)
    decreases |list|
  {
    if list == [] then (s, true)
    else if Accepts(s, list[0]) then RegisterList(Register(s, list[0]), list[1..])
    else (s, false)
  }

  // ---- Request lines ----

  function MethodName(m: Method): string {
    match m
    case GET => "GET"
    case POST => "POST"
    case PUT => "PUT"
    case DELETE => "DELETE"
    case COUNT => "UNKNOWN"
  }

  /** `extract_method`. */
  function ExtractMethod(request: string): Method {
    if "GET " <= request then GET
    else if "POST " <= request then POST
    else if "PUT " <= request then PUT
    else if "DELETE " <= request then DELETE
    else COUNT
  }

  /** The path at the start of what follows the first space: up to the next space, which must come before
      the buffer is full, without the query. */
  function PathIn(start: string): Option<string> {
    var end := IndexOf(start, ' ');
    if end == |start| || end >= PATH_SIZE then None
    else
      var query := IndexOf(start, '?');
      Some(start[..if query < end then query else end])
  }

  /** The path that `extract_path` finds. */
  function PathOf(request: string): Option<string> {
    var sp := IndexOf(request, ' ');
    if sp == |request| then None else PathIn(request[sp + 1..])
  }

  /** The key that a request asks for. */
  function Target(request: string): Option<Key> {
    if ExtractMethod(request) == COUNT || PathOf(request).None? then None
    else Some(Key(ExtractMethod(request), PathOf(request).value))
  }

  /** The target of a request line (RFC 9112, section 3.2.1). */
  function TargetText(path: string, query: Option<string>): string {
    path + if query.Some? then "?" + query.value else ""
  }

  /** A request line as a client writes it, and what follows. */
  function RequestText(m: Method, path: string, query: Option<string>, rest: string): string {
    MethodName(m) + " " + TargetText(path, query) + " " + rest
  }

  /** What a client may put into a request line that the router can read. */
  predicate Readable(m: Method, path: string, query: Option<string>) {
    && m != COUNT && '?' !in path && ' ' !in TargetText(path, query)
    && |TargetText(path, query)| < PATH_SIZE
  }

  // ---- The router ----

  /** The C string in a buffer. */
  function TextIn(buffer: seq<char>): string {
    buffer[..IndexOf(buffer, '\0')]
  }

  /** `extract_path`: the path is left in the buffer. */
  method ExtractPath(request: string, buffer: array<char>) returns (ret: int)
    requires '\0' !in request && buffer.Length == PATH_SIZE
    modifies buffer
    ensures ret == 0 <==> PathOf(request).Some?
    ensures ret == 0 ==> TextIn(buffer[..]) == PathOf(request).value
    ensures ret != 0 ==> ret == -1 && buffer[..] == old(buffer[..])
  {
    hide IndexOf;
    var sp := IndexOf(request, ' ');
    if sp == |request| {
      return -1;
    }
    var start := request[sp + 1..];
    var end := IndexOf(start, ' ');
    if end == |start| {
      return -1;
    }
    var pathLen := end;
    if pathLen >= buffer.Length {
      return -1;
    }
    var query := IndexOf(start, '?');
    if query < |start| && query < end {
      pathLen := query;
    }
    for i := 0 to pathLen
      invariant buffer[..i] == start[..i]
    {
      buffer[i] := start[i];
    }
    buffer[pathLen] := '\0';
    assert buffer[..pathLen] == start[..pathLen];
    assert forall i :: 0 <= i < pathLen ==> start[i] in request;
    IndexOfIs(buffer[..], '\0', pathLen);
    return 0;
  }

  /** The static state of http_router.c, and the handler calls made. */
  class Router {
    const routes: array<Route>
    var routeCount: nat
    var initialized: bool
    ghost var calls: seq<(Handler, string)>

    ghost predicate Valid()
      reads this
    {
      routes.Length == MAX_ROUTES && routeCount <= MAX_ROUTES
    }

    ghost function View(): State
      reads this, routes
      requires Valid()
    {
      State(initialized, routes[..routeCount])
    }

    constructor ()
      ensures Valid() && View() == State(false, []) && calls == [] && fresh(routes)
    {
      routes := new Route[MAX_ROUTES](_ => Route("", GET, 0, "", None));
      routeCount, initialized, calls := 0, false, [];
    }

    /** `http_router_init`. */
    method Init() returns (ret: int)
      requires Valid()
      modifies this`routeCount, this`initialized, routes
      ensures Valid() && ret == 0
      ensures View() == if old(initialized) then old(View()) else State(true, [])
    {
      if initialized {
        return 0;
      }
      routeCount := 0;
      forall i | 0 <= i < routes.Length {
        routes[i] := Route("", GET, 0, "", None);
      }
      initialized := true;
      return 0;
    }

    /** `http_router_cleanup`. */
    method Cleanup()
      requires Valid()
      modifies this`routeCount, this`initialized
      ensures Valid() && View() == State(false, [])
    {
      routeCount, initialized := 0, false;
    }

    /** The search that registration and dispatch share: the position of the first route for the key. */
    method Find(verb: Method, path: string) returns (k: nat)
      requires Valid()
      ensures k == IndexOf(Keys(View().routes), Key(verb, path))
      ensures k <= routeCount
    {
      k := 0;
      while k < routeCount && !(routes[k].verb == verb && routes[k].path == path)
        invariant k <= routeCount
        invariant forall i :: 0 <= i < k ==> Keys(View().routes)[i] != Key(verb, path)
      {
        k := k + 1;
      }
      IndexOfIs(Keys(View().routes), Key(verb, path), k);
    }

    /** `http_router_register_route`. */
    method RegisterRoute(r: Registration) returns (ret: int)
      requires Valid()
      modifies this`routeCount, routes
      ensures Valid()
      ensures ret == if Accepts(old(View()), r) then 0 else -1
      ensures View() == Register(old(View()), r)
    {
      hide IndexOf;
      if !initialized {
        return -1;
      }
      if r.path.None? || r.handler.None? || r.moduleName.None? {
        return -1;
      }
      if routeCount >= MAX_ROUTES {
        return -1;
      }
      if r.verb == COUNT {
        return -1;
      }
      var k := Find(r.verb, r.path.value);
      if k < routeCount {
        routes[k] := routes[k].(
          handler := r.handler.value, moduleName := r.moduleName.value, description := r.description);
        assert old(Keys(View().routes))[k] == Key(r.verb, r.path.value);
        assert View().routes == old(View().routes)[k := RouteOf(r)];
        return 0;
      }
      routes[routeCount] := RouteOf(r);
      routeCount := routeCount + 1;
      assert View().routes == old(View().routes) + [RouteOf(r)];
      return 0;
    }

    /** `http_router_register_routes`. */
    method RegisterRoutes(list: Option<seq<Registration>>) returns (ret: int)
      requires Valid()
      modifies this`routeCount, routes
      ensures Valid()
      ensures list.None? ==> ret == -1 && View() == old(View())
      ensures list.Some? ==>
                var (s, ok) := RegisterList(old(View()), list.value);
                View() == s && ret == if ok then 0 else -1
    {
      hide Register, Accepts;
      if list.None? {
        return -1;
      }
      var rs := list.value;
      assert rs[0..] == rs;
      for i := 0 to |rs|
        invariant Valid()
        invariant RegisterList(View(), rs[i..]) == RegisterList(old(View()), rs)
      {
        assert rs[i..][1..] == rs[i + 1..];
        RefusedChangesNothing(View(), rs[i]);
        ret := RegisterRoute(rs[i]);
        if ret < 0 {
          return ret;
        }
      }
      return 0;
    }

    /** `http_router_dispatch`: the handler of the requested key is called once, with the request. */
    method Dispatch(request: Option<string>) returns (ret: int)
      requires Valid() && (request.Some? ==> '\0' !in request.value)
      modifies this`calls
      ensures var found := if initialized && request.Some? && Target(request.value).Some?
                           then HandlerFor(View().routes, Target(request.value).value)
                           else None;
              && ret == (if found.Some? then 0 else -1)
              && calls == old(calls) + if found.Some? then [(found.value, request.value)] else []
    {
      hide IndexOf, PathOf, ExtractMethod;
      if !initialized {
        return -1;
      }
      if request.None? {
        return -1;
      }
      var m := ExtractMethod(request.value);
      if m == COUNT {
        return -1;
      }
      var path := new char[PATH_SIZE];
      var extracted := ExtractPath(request.value, path);
      if extracted < 0 {
        return -1;
      }
      var wanted := path[..];
      var i := Find(m, wanted[..IndexOf(wanted, '\0')]);
      if i < routeCount {
        calls := calls + [(routes[i].handler, request.value)];
        return 0;
      }
      return -1;
    }
  }

  lemma {:induction false} RefusedChangesNothing(s: State, r: Registration)
    ensures !Accepts(s, r) ==> Register(s, r) == s
  {
  }

  /** Exactly which registrations are accepted, and what they leave in the table. */
  lemma {:induction false} AcceptedExactly(s: State, r: Registration)
    ensures Accepts(s, r) <==>
              && s.initialized && |s.routes| < 128
              && r.path != None && r.handler != None && r.moduleName != None
              && r.verb in {GET, POST, PUT, DELETE}
    ensures Accepts(s, r) ==>
              && KeyOf(RouteOf(r)) == Key(r.verb, r.path.value)
              && RouteOf(r) == Route(r.path.value, r.verb, r.handler.value, r.moduleName.value, r.description)
  {
  }

  // ---- The table refines a map ----

  ghost predicate UniqueKeys(rs: seq<Route>) {
    forall i, j :: 0 <= i < j < |rs| ==> KeyOf(rs[i]) != KeyOf(rs[j])
  }

  function AsMap(rs: seq<Route>): map<Key, Handler> {
    map key | key in Keys(rs) && HandlerFor(rs, key).Some? :: HandlerFor(rs, key).value
  }

  lemma {:induction false} Lookup(rs: seq<Route>, key: Key)
    ensures HandlerFor(rs, key).Some? <==> key in Keys(rs)
    ensures key in AsMap(rs) <==> key in Keys(rs)
    ensures key in AsMap(rs) ==> HandlerFor(rs, key) == Some(AsMap(rs)[key])
  {
  }

  /** With unique keys, every route is the one that is found for its key. */
  lemma {:induction false} FoundAt(rs: seq<Route>, i: nat)
    requires UniqueKeys(rs) && i < |rs|
    ensures IndexOf(Keys(rs), KeyOf(rs[i])) == i
  {
    IndexOfIs(Keys(rs), KeyOf(rs[i]), i);
  }

  /** Registering is the update of the map, whether the key is new or not. */
  lemma {:induction false} PutUpdates(rs: seq<Route>, r: Route, key: Key)
    requires UniqueKeys(rs)
    ensures UniqueKeys(Put(rs, r))
    ensures HandlerFor(Put(rs, r), key) == if key == KeyOf(r) then Some(r.handler) else HandlerFor(rs, key)
  {
    var (k, after) := (IndexOf(Keys(rs), KeyOf(r)), Put(rs, r));
    assert UniqueKeys(after) by {
      assert forall i :: 0 <= i < |rs| && i != k ==> Keys(rs)[i] == KeyOf(after[i]) == KeyOf(rs[i]);
      if k < |rs| {
        assert KeyOf(rs[k]) == Keys(rs)[k];
      }
    }
    if key == KeyOf(r) {
      FoundAt(after, k);
    } else {
      var n := IndexOf(Keys(rs), key);
      if n < |rs| {
        assert Keys(rs)[n] == key;
        FoundAt(after, n);
      } else {
        forall i | 0 <= i < |after|
          ensures Keys(after)[i] != key
        {
          assert i == k || Keys(after)[i] == Keys(rs)[i];
        }
        IndexOfIs(Keys(after), key, |after|);
      }
    }
  }

  lemma {:induction false} MapSize(rs: seq<Route>)
    requires UniqueKeys(rs)
    ensures |AsMap(rs)| == |rs|
  {
    hide HandlerFor, AsMap;
    if rs == [] {
      EmptyTable();
    } else {
      var (init, last) := (rs[..|rs| - 1], rs[|rs| - 1]);
      MapSize(init);
      assert Keys(rs) == Keys(init) + [KeyOf(last)];
      assert KeyOf(last) !in Keys(init) && KeyOf(last) !in AsMap(init).Keys by {
        Lookup(init, KeyOf(last));
      }
      assert AsMap(rs).Keys == AsMap(init).Keys + {KeyOf(last)} by {
        forall key
          ensures key in AsMap(rs) <==> key in AsMap(init) || key == KeyOf(last)
        {
          Lookup(rs, key);
          Lookup(init, key);
        }
      }
      assert |AsMap(rs).Keys| == |rs|;
    }
  }

  lemma {:induction false} EmptyTable()
    ensures UniqueKeys([]) && AsMap([]) == map[]
  {
  }

  // ---- Runs ----

  datatype Operation = InitOp | CleanupOp | RegisterOp(r: Registration)

  function Apply(s: State, op: Operation): State {
    match op
    case InitOp => if s.initialized then s else State(true, [])
    case CleanupOp => State(false, [])
    case RegisterOp(r) => Register(s, r)
  }

  function Run(ops: seq<Operation>): State {
    if ops == [] then State(false, []) else Apply(Run(ops[..|ops| - 1]), ops[|ops| - 1])
  }

  /** What the router stands for: nothing before its initialisation, then a map of at most 128 keys that
      refuses changes once it is full. */
  function Meaning(ops: seq<Operation>): Option<map<Key, Handler>> {
    if ops == [] then None
    else
      var before := Meaning(ops[..|ops| - 1]);
      match ops[|ops| - 1]
      case InitOp => if before.Some? then before else Some(map[])
      case CleanupOp => None
      case RegisterOp(r) =>
        if before.Some? && Complete(r) && |before.value| < MAX_ROUTES
        then Some(before.value[KeyOf(RouteOf(r)) := r.handler.value])
        else before
  }

  /** The table of a state, as the map that it stands for. */
  function Abstract(s: State): Option<map<Key, Handler>> {
    if s.initialized then Some(AsMap(s.routes)) else None
  }

  ghost predicate Sound(s: State) {
    UniqueKeys(s.routes) && |s.routes| <= MAX_ROUTES && (!s.initialized ==> s.routes == [])
  }

  lemma {:induction false} RegisterRefines(s: State, r: Registration)
    requires Sound(s) && Accepts(s, r)
    ensures Sound(Register(s, r))
    ensures AsMap(Register(s, r).routes) == AsMap(s.routes)[KeyOf(RouteOf(r)) := r.handler.value]
  {
    hide HandlerFor, AsMap, Keys, UniqueKeys;
    var (route, after) := (RouteOf(r), Register(s, r).routes);
    var updated := AsMap(s.routes)[KeyOf(route) := route.handler];
    forall key
      ensures key in AsMap(after) <==> key in updated
      ensures key in AsMap(after) ==> AsMap(after)[key] == updated[key]
      ensures UniqueKeys(after)
    {
      PutUpdates(s.routes, route, key);
      Lookup(s.routes, key);
      Lookup(after, key);
    }
    PutUpdates(s.routes, route, KeyOf(route));
  }

  /** Over every run the table has unique keys and stands for the bounded map. */
  lemma {:induction false} RouterRefinesMap(ops: seq<Operation>)
    ensures Sound(Run(ops))
    ensures Abstract(Run(ops)) == Meaning(ops)
  {
    hide AsMap, UniqueKeys, Keys, HandlerFor, Put;
    assert UniqueKeys([]) && AsMap([]) == map[] by { EmptyTable(); }
    if ops != [] {
      var (s, op) := (Run(ops[..|ops| - 1]), ops[|ops| - 1]);
      RouterRefinesMap(ops[..|ops| - 1]);
      MapSize(s.routes);
      if op.RegisterOp? && Accepts(s, op.r) {
        RegisterRefines(s, op.r);
      }
    }
  }

  /** After any run, a request is answered by the handler that was last accepted for its key since the
      router was last set up. */
  lemma {:induction false} LatestHandlerWins(ops: seq<Operation>, i: nat)
    requires i < |ops| && ops[i].RegisterOp? && Accepts(Run(ops[..i]), ops[i].r)
    requires forall j :: i < j < |ops| ==>
               && !ops[j].CleanupOp?
               && (ops[j].RegisterOp? && Accepts(Run(ops[..j]), ops[j].r) ==>
                     KeyOf(RouteOf(ops[j].r)) != KeyOf(RouteOf(ops[i].r)))
    ensures Run(ops).initialized
    ensures HandlerFor(Run(ops).routes, KeyOf(RouteOf(ops[i].r))) == ops[i].r.handler
  {
    hide HandlerFor, UniqueKeys, Put;
    var (n, key) := (|ops| - 1, KeyOf(RouteOf(ops[i].r)));
    var init := ops[..n];
    RouterRefinesMap(init);
    if i < n {
      assert init[..i] == ops[..i];
      assert forall j :: i < j < n ==> init[j] == ops[j] && init[..j] == ops[..j];
      LatestHandlerWins(init, i);
    }
    if ops[n].RegisterOp? && Accepts(Run(init), ops[n].r) {
      PutUpdates(Run(init).routes, RouteOf(ops[n].r), key);
    }
  }

  /** A key that nobody registered since the router was last set up has no handler. */
  lemma {:induction false} UnregisteredIsUnmapped(ops: seq<Operation>, key: Key)
    requires forall j :: 0 <= j < |ops| && ops[j].RegisterOp? && Accepts(Run(ops[..j]), ops[j].r) ==>
               KeyOf(RouteOf(ops[j].r)) != key
    ensures HandlerFor(Run(ops).routes, key) == None
  {
    if ops != [] {
      var n := |ops| - 1;
      var init := ops[..n];
      assert forall j :: 0 <= j < n ==> init[j] == ops[j] && init[..j] == ops[..j];
      UnregisteredIsUnmapped(init, key);
      hide UniqueKeys, Put, AsMap;
      RouterRefinesMap(init);
      if ops[n].RegisterOp? && Accepts(Run(init), ops[n].r) {
        PutUpdates(Run(init).routes, RouteOf(ops[n].r), key);
      }
    }
  }

  /** An override leaves every route where it stands; a new key goes behind the others. */
  lemma {:induction false} OverrideInPlace(rs: seq<Route>, r: Route)
    ensures Keys(Put(rs, r)) == if KeyOf(r) in Keys(rs) then Keys(rs) else Keys(rs) + [KeyOf(r)]
  {
  }

  /** Overriding a route that is there takes effect exactly when the table is not full, or when nothing
      was to change. */
  lemma {:induction false} OverrideExactly(s: State, r: Registration)
    requires Sound(s) && s.initialized && Complete(r) && KeyOf(RouteOf(r)) in Keys(s.routes)
    ensures HandlerFor(Register(s, r).routes, KeyOf(RouteOf(r))) == r.handler <==>
              |s.routes| < MAX_ROUTES || HandlerFor(s.routes, KeyOf(RouteOf(r))) == r.handler
  {
    hide HandlerFor, Keys, UniqueKeys, Put;
    PutUpdates(s.routes, RouteOf(r), KeyOf(RouteOf(r)));
  }

  /** Registrations of `n` paths of different lengths, all with handler 0. */
  function Filling(n: nat): seq<Operation> {
    if n == 0 then [InitOp]
    else Filling(n - 1) + [RegisterOp(Filler(n - 1))]
  }

  function Filler(i: nat): Registration {
    Registration(Some(Path(i)), GET, Some(0), Some("m"), None)
  }

  function Path(length: nat): string {
    seq(length, _ => 'a')
  }

  lemma {:induction false} Filled(n: nat)
    requires n <= MAX_ROUTES
    ensures var s := Run(Filling(n));
            s.initialized && |s.routes| == n
            && forall i :: 0 <= i < n ==> s.routes[i] == RouteOf(Filler(i))
  {
    hide Path, Put, Keys, Run;
    if n == 0 {
      FreshRun();
    } else {
      Filled(n - 1);
      RunStep(Filling(n - 1), RegisterOp(Filler(n - 1)));
      var rs := Run(Filling(n - 1)).routes;
      forall i | 0 <= i < n - 1
        ensures KeyOf(rs[i]) != KeyOf(RouteOf(Filler(n - 1)))
      {
        PathLength(i);
        PathLength(n - 1);
      }
      PutNew(rs, RouteOf(Filler(n - 1)));
    }
  }

  lemma {:induction false} FreshRun()
    ensures Run([InitOp]) == State(true, [])
  {
    assert [InitOp][..0] == [];
  }

  lemma {:induction false} RunStep(ops: seq<Operation>, op: Operation)
    ensures Run(ops + [op]) == Apply(Run(ops), op)
  {
    assert (ops + [op])[..|ops|] == ops;
  }

  lemma {:induction false} PutNew(rs: seq<Route>, r: Route)
    requires forall i :: 0 <= i < |rs| ==> KeyOf(rs[i]) != KeyOf(r)
    ensures Put(rs, r) == rs + [r]
  {
    IndexOfIs(Keys(rs), KeyOf(r), |rs|);
  }

  lemma {:induction false} PathLength(length: nat)
    ensures |Path(length)| == length
  {
  }

  /** A full router keeps the old handler of a path that is registered again. */
  lemma {:induction false} FullTableKeepsOldHandler() returns (ops: seq<Operation>, r: Registration)
    ensures Complete(r) && r.handler == Some(1)
    ensures HandlerFor(Run(ops).routes, KeyOf(RouteOf(r))) == Some(0)
    ensures HandlerFor(Run(ops + [RegisterOp(r)]).routes, KeyOf(RouteOf(r))) == Some(0)
  {
    ops := Filling(MAX_ROUTES);
    r := Registration(Some(Path(0)), GET, Some(1), Some("m"), None);
    Filled(MAX_ROUTES);
    hide Filling, Path;
    RunStep(ops, RegisterOp(r));
    IndexOfIs(Keys(Run(ops).routes), KeyOf(RouteOf(r)), 0);
  }

  function Singles(list: seq<Registration>, n: nat): seq<Operation>
    requires n <= |list|
  {
    seq(n, i requires 0 <= i < n => RegisterOp(list[i]))
  }

  /** A batch is the run of its registrations up to the first one that is refused. */
  lemma {:induction false} BatchIsRun(ops: seq<Operation>, list: seq<Registration>) returns (n: nat)
    ensures n <= |list|
    ensures var singles := ops + Singles(list, n);
            && RegisterList(Run(ops), list) == (Run(singles), n == |list|)
            && (n < |list| ==> !Accepts(Run(singles), list[n]))
    decreases |list|
  {
    hide Accepts, Register;
    if list == [] || !Accepts(Run(ops), list[0]) {
      n := 0;
      assert ops + Singles(list, n) == ops;
    } else {
      var next := ops + [RegisterOp(list[0])];
      assert next[..|ops|] == ops;
      var m := BatchIsRun(next, list[1..]);
      n := m + 1;
      assert next + Singles(list[1..], m) == ops + Singles(list, n);
    }
  }

  // ---- Reading a request line ----

  /** A method name in front of a space is recognised, and by nothing else. */
  lemma {:induction false} MethodIs(m: Method, more: string)
    requires m != COUNT
    ensures ExtractMethod(MethodName(m) + " " + more) == m
    ensures IndexOf(MethodName(m) + " " + more, ' ') == |MethodName(m)|
  {
    var name := MethodName(m);
    var request := name + " " + more;
    assert name + " " <= request;
    assert request[0] == name[0] && request[1] == name[1];
    IndexOfIs(request, ' ', |name|);
  }

  lemma {:induction false} MethodSplits(request: string)
    requires ExtractMethod(request) != COUNT
    ensures var name := MethodName(ExtractMethod(request));
            IndexOf(request, ' ') == |name| < |request| && request == name + " " + request[|name| + 1..]
  {
    var name := MethodName(ExtractMethod(request));
    assert name + " " <= request;
    assert request == (name + " ") + request[|name| + 1..];
    assert forall i :: 0 <= i < |name| ==> request[i] == (name + " ")[i];
    IndexOfIs(request, ' ', |name|);
  }

  lemma {:induction false} PrintedPath(path: string, query: Option<string>, rest: string)
    requires Readable(GET, path, query)
    ensures PathIn(TargetText(path, query) + " " + rest) == Some(path)
  {
    hide IndexOf;
    var target := TargetText(path, query);
    var start := target + " " + rest;
    assert forall i :: 0 <= i < |target| ==> start[i] == target[i];
    IndexOfIs(start, ' ', |target|);
    assert start[..|path|] == path;
    if query.Some? {
      IndexOfIs(start, '?', |path|);
    }
  }

  lemma {:induction false} PathIsPrinted(start: string) returns (query: Option<string>, rest: string)
    requires PathIn(start).Some?
    ensures Readable(GET, PathIn(start).value, query)
    ensures start == TargetText(PathIn(start).value, query) + " " + rest
  {
    hide IndexOf;
    var (path, end, mark) := (PathIn(start).value, IndexOf(start, ' '), IndexOf(start, '?'));
    rest := start[end + 1..];
    query := if mark < end then Some(start[mark + 1..end]) else None;
    assert TargetText(path, query) == start[..end];
    assert start == start[..end] + " " + rest;
  }

  /** A readable request line asks for its method and path; the query does not matter. */
  lemma {:induction false} PrintedTarget(m: Method, path: string, query: Option<string>, rest: string)
    requires Readable(m, path, query)
    ensures Target(RequestText(m, path, query, rest)) == Some(Key(m, path))
  {
    hide IndexOf, PathIn, TargetText, MethodName, ExtractMethod;
    var start := TargetText(path, query) + " " + rest;
    var request := RequestText(m, path, query, rest);
    assert request == MethodName(m) + " " + start;
    MethodIs(m, start);
    assert request[|MethodName(m)| + 1..] == start;
    PrintedPath(path, query, rest);
  }

  /** Everything that the router can read is such a request line. */
  lemma {:induction false} TargetIsPrinted(request: string) returns (query: Option<string>, rest: string)
    requires Target(request).Some?
    ensures var key := Target(request).value;
            Readable(key.verb, key.path, query) && request == RequestText(key.verb, key.path, query, rest)
  {
    hide IndexOf, PathIn, TargetText, MethodName, ExtractMethod;
    MethodSplits(request);
    query, rest := PathIsPrinted(request[IndexOf(request, ' ') + 1..]);
    var (name, target) := (MethodName(Target(request).value.verb), TargetText(Target(request).value.path, query));
    assert name + " " + (target + " " + rest) == name + " " + target + " " + rest;
  }

  /** The router reads exactly the request lines with a known method, a target below 256 characters and
      two separating spaces, and takes from them the method and the path before the query. */
  lemma {:induction false} TargetExactly(request: string, key: Key)
    ensures Target(request) == Some(key) <==>
              exists query, rest :: Readable(key.verb, key.path, query)
                                    && request == RequestText(key.verb, key.path, query, rest)
  {
    hide Target, Readable, RequestText;
    if Target(request) == Some(key) {
      var query, rest := TargetIsPrinted(request);
    }
    forall query, rest | Readable(key.verb, key.path, query) && request == RequestText(key.verb, key.path, query, rest)
      ensures Target(request) == Some(key)
    {
      PrintedTarget(key.verb, key.path, query, rest);
    }
  }

  /** The four methods by their names in a request. */
  lemma {:induction false} MethodsByName(more: string)
    ensures ExtractMethod("GET " + more) == GET && ExtractMethod("POST " + more) == POST
    ensures ExtractMethod("PUT " + more) == PUT && ExtractMethod("DELETE " + more) == DELETE
  {
    assert ("GET " + more)[0] == 'G';
    assert "POST " <= "POST " + more && ("POST " + more)[0] == 'P' && ("POST " + more)[1] == 'O';
    assert "PUT " <= "PUT " + more && ("PUT " + more)[0] == 'P' && ("PUT " + more)[1] == 'U';
    assert "DELETE " <= "DELETE " + more && ("DELETE " + more)[0] == 'D';
  }

  /** A GET request in plain text: what stands between the spaces, up to a question mark, is the path, when
      both together have at most 255 characters. */
  lemma {:induction false} PlainGet(path: string, query: string, rest: string)
    requires ' ' !in path && '?' !in path && ' ' !in query
    ensures |path| <= 255 ==> Target("GET " + path + " " + rest) == Some(Key(GET, path))
    ensures |path| > 255 ==> Target("GET " + path + " " + rest) == None
    ensures |path| + 1 + |query| <= 255 ==>
              Target("GET " + path + "?" + query + " " + rest) == Some(Key(GET, path))
    ensures |path| + 1 + |query| > 255 ==> Target("GET " + path + "?" + query + " " + rest) == None
  {
    hide Target;
    GetText(path, rest, path, None);
    assert path + "?" + query == path + ("?" + query);
    assert "GET " + path + "?" + query + " " + rest == "GET " + (path + "?" + query) + " " + rest;
    GetText(path + "?" + query, rest, path, Some(query));
  }

  lemma {:induction false} GetText(target: string, rest: string, path: string, query: Option<string>)
    requires ' ' !in target && '?' !in path && target == TargetText(path, query)
    ensures Target("GET " + target + " " + rest) == if |target| <= 255 then Some(Key(GET, path)) else None
  {
    hide IndexOf, ExtractMethod;
    var start := target + " " + rest;
    var request := "GET " + target + " " + rest;
    assert request == "GET" + " " + start;
    assert MethodName(GET) == "GET";
    MethodIs(GET, start);
    assert request[4..] == start;
    if |target| <= 255 {
      PrintedPath(path, query, rest);
    } else {
      assert forall i :: 0 <= i < |target| ==> start[i] == target[i];
      IndexOfIs(start, ' ', |target|);
    }
  }
}

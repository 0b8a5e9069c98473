/** The route table of src/main.rs: a map from an exact (path, verb) key to a
    handler, built by inserting registrations one after another, and the exact,
    case-sensitive lookup `find_handler`. */
module Routing {

  import opened Optional
  import opened Render

  /** The HTTP method as the `http` crate represents it: the standard methods, and any
      other token as an extension method. Comparison is exact, so `get` is an
      extension method distinct from `GET`. `Method::from_bytes` only yields an
      extension method for a non-empty token that is not a standard name (the
      standard names become the constants and an empty token is an error), so
      `Extension("GET")` and `Extension("")` stand for no request the server
      receives; the type admits them, and they simply miss every route. */
  datatype Method =
    | OPTIONS | GET | POST | PUT | DELETE | HEAD | TRACE | CONNECT | PATCH
    | Extension(token: string)

  /** A route key: the exact path and the method. */
  datatype RouteKey = RouteKey(path: string, verb: Method)

  type RouteTable = map<RouteKey, Handler>

  /** `HashMap::insert`: the key is mapped to the handler, replacing any earlier
      handler for that key, and every other key keeps what it had. */
  function Register(t: RouteTable, key: RouteKey, h: Handler): (t': RouteTable)
    ensures t'.Keys == t.Keys + {key}
    ensures t'[key] == h
    ensures forall k | k in t && k != key :: t'[k] == t[k]
  {
    t[key := h]
  }

  /** The table that inserting `regs` in order into an empty table produces. */
  function Build(regs: seq<(RouteKey, Handler)>): RouteTable
    decreases |regs|
  {
    if regs == [] then map[]
    else
      var last := regs[|regs| - 1];
      Register(Build(regs[..|regs| - 1]), last.0, last.1)
  }

  /** `regs[i]` is the last registration for its key. */
  predicate IsLastFor(regs: seq<(RouteKey, Handler)>, i: nat)
    requires i < |regs|
  {
    forall j | i < j < |regs| :: regs[j].0 != regs[i].0
  }

  /** A key is in the built table exactly when it was registered, and it maps to
      the handler of its last registration: the last write wins. */
  lemma BuildLastWins(regs: seq<(RouteKey, Handler)>, k: RouteKey)
    ensures k in Build(regs) <==> exists i | 0 <= i < |regs| :: regs[i].0 == k
    ensures forall i | 0 <= i < |regs| && regs[i].0 == k && IsLastFor(regs, i) :: Build(regs)[k] == regs[i].1
  {
    BuildKeys(regs, k);
    forall i | 0 <= i < |regs| && regs[i].0 == k && IsLastFor(regs, i)
      ensures Build(regs)[k] == regs[i].1
    {
      BuildLast(regs, i);
    }
  }

  /** The built table's keys are exactly the registered ones. */
  lemma {:induction false} BuildKeys(regs: seq<(RouteKey, Handler)>, k: RouteKey)
    ensures k in Build(regs) <==> exists i | 0 <= i < |regs| :: regs[i].0 == k
    decreases |regs|
  {
    if regs != [] {
      var n := |regs| - 1;
      var init := regs[..n];
      BuildKeys(init, k);
      if exists i | 0 <= i < |init| :: init[i].0 == k {
        var i :| 0 <= i < |init| && init[i].0 == k;
        assert regs[i].0 == k;
      }
      if exists i | 0 <= i < |regs| :: regs[i].0 == k {
        var i :| 0 <= i < |regs| && regs[i].0 == k;
        if i < n {
          assert init[i].0 == k;
        }
      }
    }
  }

  /** The last registration for a key is the one the built table keeps. */
  lemma {:induction false} BuildLast(regs: seq<(RouteKey, Handler)>, i: nat)
    requires i < |regs| && IsLastFor(regs, i)
    ensures regs[i].0 in Build(regs) && Build(regs)[regs[i].0] == regs[i].1
    decreases |regs|
  {
    var n := |regs| - 1;
    if i < n {
      var init := regs[..n];
      assert regs[n].0 != regs[i].0;
      assert init[i] == regs[i];
      assert IsLastFor(init, i);
      BuildLast(init, i);
    }
  }

  /** The registrations made at startup, in order. */
  const StartupRegistrations: seq<(RouteKey, Handler)> := [
    (RouteKey("/hello", GET), Hello),
    (RouteKey("/bye", GET), Goodbye),
    (RouteKey("/submit", POST), Submit)
  ]

  /** The table the server shares between connections. */
  function StartupRoutes(): (t: RouteTable)
    ensures t == map[RouteKey("/hello", GET) := Hello, RouteKey("/bye", GET) := Goodbye,
                     RouteKey("/submit", POST) := Submit]
  {
    var regs := StartupRegistrations;
    assert regs[..2][..1][..0] == [];
    assert Build(regs[..2][..1]) == map[regs[0].0 := regs[0].1];
    assert regs[..2][..1] == regs[..1];
    Build(regs)
  }

  /** `find_handler`: a handler exactly when the key (path, verb) is in the table,
      and then the handler the table maps it to. */
  function FindHandler(path: string, verb: Method, t: RouteTable): (r: Option<Handler>)
    ensures r.Some? <==> RouteKey(path, verb) in t
    ensures r.Some? ==> r.value == t[RouteKey(path, verb)]
  {
    var key := RouteKey(path, verb);
    if key in t then Some(t[key]) else None
  }

  /** With the startup table, lookup hits exactly the three registered keys, and a
      hit is never the not-found handler. */
  lemma StartupLookup(path: string, verb: Method)
    ensures FindHandler(path, verb, StartupRoutes()).Some?
        <==> (path == "/hello" && verb == GET) || (path == "/bye" && verb == GET)
             || (path == "/submit" && verb == POST)
    ensures FindHandler(path, verb, StartupRoutes()) != Some(NotFound)
  {
  }

  /** Matching is exact: another case of the path, the wrong method, or a trailing
      slash all miss. */
  lemma ExactMatch()
    ensures FindHandler("/Hello", GET, StartupRoutes()) == None
    ensures FindHandler("/hello", POST, StartupRoutes()) == None
    ensures FindHandler("/hello/", GET, StartupRoutes()) == None
    ensures FindHandler("/hello", Extension("get"), StartupRoutes()) == None
    ensures FindHandler("/hello", GET, StartupRoutes()) == Some(Hello)
  {
    StartupLookup("/Hello", GET);
  }

}

/** _route_shape(): replacing every match of \{[^{}]+\}, leftmost first and without
    overlap, by {param}. */
module RouteShapes {
  import opened Options

  predicate IsBrace(c: char) {
    c == '{' || c == '}'
  }

  /** How many characters come before the first brace, and which brace that is. */
  function Run(s: string): (nat, Option<char>) {
    if s == "" then (0, None)
    else if IsBrace(s[0]) then (0, Some(s[0]))
    else var (n, brace) := Run(s[1..]); (n + 1, brace)
  }

  /** A parameter starts here: an opening brace, a nonempty brace-free name, a closing brace. */
  predicate ParamAt(s: string) {
    s != "" && s[0] == '{' && Run(s[1..]).0 >= 1 && Run(s[1..]).1 == Some('}')
  }

  lemma {:induction false} RunIsWithin(s: string)
    ensures Run(s).0 <= |s| &&
            (Run(s).1.Some? ==> Run(s).0 < |s| && s[Run(s).0] == Run(s).1.value && IsBrace(s[Run(s).0]))
    ensures forall i | 0 <= i < Run(s).0 :: !IsBrace(s[i])
  {
    if s != "" && !IsBrace(s[0]) {
      RunIsWithin(s[1..]);
      assert forall i | 1 <= i < Run(s).0 :: s[i] == s[1..][i - 1];
    }
  }

  /** The name of the parameter that starts here. */
  function ParamName(s: string): (name: string)
    requires ParamAt(s)
    ensures |name| == Run(s[1..]).0 && |name| + 2 <= |s|
  {
    RunIsWithin(s[1..]);
    s[1..1 + Run(s[1..]).0]
  }

  function RouteShape(path: string): string
    decreases |path|
  {
    if path == "" then ""
    else if ParamAt(path) then "{param}" + RouteShape(path[|ParamName(path)| + 2..])
    else [path[0]] + RouteShape(path[1..])
  }

  // ---------------------------------------------------------------- paths as tokens

  datatype Token = Literal(c: char) | Parameter(name: string)

  function Tokens(path: string): seq<Token>
    decreases |path|
  {
    if path == "" then []
    else if ParamAt(path) then [Parameter(ParamName(path))] + Tokens(path[|ParamName(path)| + 2..])
    else [Literal(path[0])] + Tokens(path[1..])
  }

  function RenderToken(t: Token): string {
    match t
    case Literal(c) => [c]
    case Parameter(name) => "{" + name + "}"
  }

  function Render(tokens: seq<Token>): string {
    if tokens == [] then "" else RenderToken(tokens[0]) + Render(tokens[1..])
  }

  predicate IsName(name: string) {
    name != "" && forall i | 0 <= i < |name| :: !IsBrace(name[i])
  }

  /** Literals and parameters in the same places; only the names may differ. */
  ghost predicate SameUpToNames(a: seq<Token>, b: seq<Token>) {
    |a| == |b| && forall i | 0 <= i < |a| :: a[i] == b[i] || (a[i].Parameter? && b[i].Parameter?)
  }

  /** Every parameter has a name, and no literal brace opens what could be read as a parameter. */
  ghost predicate IsReading(tokens: seq<Token>) {
    tokens != [] ==>
      && (tokens[0].Parameter? ==> IsName(tokens[0].name))
      && (tokens[0].Literal? ==> !ParamAt(Render(tokens)))
      && IsReading(tokens[1..])
  }

  lemma {:induction false} RunOfName(name: string, rest: string)
    requires forall i | 0 <= i < |name| :: !IsBrace(name[i])
    ensures Run(name + rest) == (|name| + Run(rest).0, Run(rest).1)
  {
    if name == "" {
      assert name + rest == rest;
    } else {
      assert (name + rest)[1..] == name[1..] + rest;
      RunOfName(name[1..], rest);
    }
  }

  /** A rendered parameter is read as that parameter, whatever follows. */
  lemma ReadParameter(name: string, rest: string)
    requires IsName(name)
    ensures ParamAt("{" + name + "}" + rest) && ParamName("{" + name + "}" + rest) == name
    ensures ("{" + name + "}" + rest)[|name| + 2..] == rest
  {
    var s := "{" + name + "}" + rest;
    assert s[1..] == name + ("}" + rest);
    RunOfName(name, "}" + rest);
    assert s[1..1 + |name|] == name;
  }

  lemma ParamSplits(path: string)
    requires ParamAt(path)
    ensures IsName(ParamName(path)) && path == "{" + ParamName(path) + "}" + path[|ParamName(path)| + 2..]
  {
    RunIsWithin(path[1..]);
    var name := ParamName(path);
    assert forall i | 0 <= i < |name| :: name[i] == path[1..][i];
    assert path[|name| + 1] == path[1..][|name|] == '}';
  }

  /** Scanning gives a reading of the path, and loses nothing. */
  lemma {:induction false} TokensRead(path: string)
    ensures Render(Tokens(path)) == path && IsReading(Tokens(path))
    decreases |path|
  {
    hide Run, IsName, ParamName;
    if path != "" {
      var tokens := Tokens(path);
      if ParamAt(path) {
        ParamSplits(path);
        var rest := path[|ParamName(path)| + 2..];
        TokensRead(rest);
        assert tokens[0] == Parameter(ParamName(path)) && tokens[1..] == Tokens(rest);
      } else {
        TokensRead(path[1..]);
        assert tokens[0] == Literal(path[0]) && tokens[1..] == Tokens(path[1..]);
        assert path == [path[0]] + path[1..];
      }
      hide Tokens;
      assert Render(tokens) == RenderToken(tokens[0]) + Render(tokens[1..]);
    }
  }

  lemma ScanParameter(name: string, rest: string)
    requires IsName(name)
    ensures Tokens("{" + name + "}" + rest) == [Parameter(name)] + Tokens(rest)
  {
    hide ParamAt, Run;
    ReadParameter(name, rest);
  }

  lemma ScanLiteral(c: char, rest: string)
    requires !ParamAt([c] + rest)
    ensures Tokens([c] + rest) == [Literal(c)] + Tokens(rest)
  {
    hide ParamAt, Run;
    assert ([c] + rest)[1..] == rest;
  }

  /** A reading is what scanning finds: the path has no other. */
  lemma {:induction false} ReadingIsUnique(tokens: seq<Token>)
    requires IsReading(tokens)
    ensures Tokens(Render(tokens)) == tokens
  {
    if tokens != [] {
      ReadingIsUnique(tokens[1..]);
      hide Tokens, ParamAt, Run;
      if tokens[0].Parameter? {
        ScanParameter(tokens[0].name, Render(tokens[1..]));
      } else {
        ScanLiteral(tokens[0].c, Render(tokens[1..]));
      }
      assert tokens == [tokens[0]] + tokens[1..];
    }
  }

  // ---------------------------------------------------------------- renaming

  function Renamed(tokens: seq<Token>, name: string): (r: seq<Token>)
    ensures |r| == |tokens|
    ensures forall i | 0 <= i < |tokens| :: r[i] == if tokens[i].Parameter? then Parameter(name) else tokens[i]
  {
    if tokens == [] then []
    else [if tokens[0].Parameter? then Parameter(name) else tokens[0]] + Renamed(tokens[1..], name)
  }

  /** Up to its first brace a path does not depend on the parameter names. */
  lemma {:induction false} RunIgnoresNames(tokens: seq<Token>, name: string)
    ensures Run(Render(Renamed(tokens, name))) == Run(Render(tokens))
  {
    if tokens != [] {
      RunIgnoresNames(tokens[1..], name);
      var renamed := Renamed(tokens, name);
      assert renamed[1..] == Renamed(tokens[1..], name);
      if tokens[0].Literal? {
        assert Render(tokens)[1..] == Render(tokens[1..]);
        assert Render(renamed)[1..] == Render(renamed[1..]);
      }
    }
  }

  lemma {:induction false} RenamingKeepsReadings(tokens: seq<Token>, name: string)
    requires IsReading(tokens) && IsName(name)
    ensures IsReading(Renamed(tokens, name))
  {
    if tokens != [] {
      RenamingKeepsReadings(tokens[1..], name);
      var renamed := Renamed(tokens, name);
      assert renamed[1..] == Renamed(tokens[1..], name);
      if tokens[0].Literal? {
        RunIgnoresNames(tokens[1..], name);
        assert Render(tokens)[1..] == Render(tokens[1..]);
        assert Render(renamed)[1..] == Render(renamed[1..]);
      }
    }
  }

  /** The shape is the path with every parameter renamed to "param". */
  lemma {:induction false} ShapeRenames(path: string)
    ensures RouteShape(path) == Render(Renamed(Tokens(path), "param"))
    decreases |path|
  {
    if path != "" {
      var tokens := Tokens(path);
      var rest := if ParamAt(path) then path[|ParamName(path)| + 2..] else path[1..];
      ShapeRenames(rest);
      assert tokens[1..] == Tokens(rest);
      assert Renamed(tokens, "param")[1..] == Renamed(Tokens(rest), "param");
      assert RenderToken(Parameter("param")) == "{param}";
    }
  }

  /** Scanning a shape finds the tokens of the path, renamed. */
  lemma ShapeTokens(path: string)
    ensures Tokens(RouteShape(path)) == Renamed(Tokens(path), "param")
  {
    TokensRead(path);
    RenamingKeepsReadings(Tokens(path), "param");
    ShapeRenames(path);
    ReadingIsUnique(Renamed(Tokens(path), "param"));
  }

  /** A shape is its own shape. */
  lemma ShapeIsIdempotent(path: string)
    ensures RouteShape(RouteShape(path)) == RouteShape(path)
  {
    ShapeTokens(path);
    ShapeRenames(path);
    ShapeRenames(RouteShape(path));
    assert Renamed(Renamed(Tokens(path), "param"), "param") == Renamed(Tokens(path), "param");
  }

  /** Two paths have the same shape exactly when they differ in parameter names only. */
  lemma ShapeIdentifiesExactly(p: string, q: string)
    ensures RouteShape(p) == RouteShape(q) <==> SameUpToNames(Tokens(p), Tokens(q))
  {
    ShapeTokens(p);
    ShapeTokens(q);
    var a, b := Renamed(Tokens(p), "param"), Renamed(Tokens(q), "param");
    if RouteShape(p) == RouteShape(q) {
      assert a == b;
      forall i | 0 <= i < |Tokens(p)|
        ensures Tokens(p)[i] == Tokens(q)[i] || (Tokens(p)[i].Parameter? && Tokens(q)[i].Parameter?)
      {
        assert a[i] == b[i];
      }
    }
    if SameUpToNames(Tokens(p), Tokens(q)) {
      assert a == b;
      ShapeRenames(p);
      ShapeRenames(q);
    }
  }
}

/** build_endpoint_policies(): one policy for every mounted operation. */
module PolicyRegistry {
  import opened Characters
  import opened RouteShapes
  import opened LexOrder
  import opened Options

  /** OPENAPI_METHODS in ascending order. */
  const OPENAPI_METHODS: seq<string> := ["DELETE", "GET", "HEAD", "OPTIONS", "PATCH", "POST", "PUT", "TRACE"]
  const SAFE_METHODS: set<string> := {"GET", "HEAD", "OPTIONS"}
  const DOCUMENTATION_PATHS: set<string> := {"/openapi.json", "/docs", "/docs/oauth2-redirect", "/redoc"}

  /** The fields of a rule that every policy takes over unchanged. */
  datatype Profile = Profile(resourceOwner: string, audience: string, authentication: string, permission: string,
                             tenantScope: string, recordPolicy: string, capabilityGate: string,
                             rateLimitClass: string, piiClassification: string)

  datatype Rule = Rule(name: string, pattern: string, methods: set<string>, profile: Profile,
                       idempotencyKeyPolicy: string, requestHashPolicy: string, ifMatchPolicy: string,
                       emittedEffect: string, deprecationStatus: string)

  datatype Route = Route(path: string, methods: Option<set<string>>, operationId: string,
                         requestSchema: string, responseSchema: string, deprecated: bool)

  datatype Policy = Policy(verb: string, path: string, operationId: string, rule: string, profile: Profile,
                           idempotencyKeyPolicy: string, requestHashPolicy: string, ifMatchPolicy: string,
                           requestSchema: string, responseSchema: string, emittedEffect: string,
                           deprecationStatus: string)

  /** A mounted operation. */
  datatype Operation = Operation(route: Route, verb: string) {
    function Key(): (string, string) {
      (verb, RouteShape(route.path))
    }
  }

  /** The rules, and re.fullmatch(pattern, path). */
  datatype Registry = Registry(rules: seq<Rule>, fullmatch: (string, string) -> bool)

  predicate Applies(rule: Rule, fullmatch: (string, string) -> bool, op: Operation) {
    op.verb in rule.methods && fullmatch(rule.pattern, op.route.path)
  }

  function MatchingRules(registry: Registry, op: Operation): seq<Rule> {
    Select(registry.rules, registry.fullmatch, op)
  }

  function Select(rules: seq<Rule>, fullmatch: (string, string) -> bool, op: Operation): seq<Rule> {
    if rules == [] then []
    else if Applies(rules[0], fullmatch, op)
    then [rules[0]] + Select(rules[1..], fullmatch, op)
    else Select(rules[1..], fullmatch, op)
  }

  function Expand(rule: Rule, op: Operation): Policy {
    var isWrite := op.verb !in SAFE_METHODS;
    Policy(op.verb, op.route.path, op.route.operationId, rule.name, rule.profile,
           if isWrite then rule.idempotencyKeyPolicy else "not-applicable",
           if isWrite then rule.requestHashPolicy else "not-applicable",
           if isWrite then rule.ifMatchPolicy else "not-applicable",
           op.route.requestSchema, op.route.responseSchema,
           if isWrite then rule.emittedEffect else "none",
           if op.route.deprecated then "deprecated" else rule.deprecationStatus)
  }

  // ---------------------------------------------------------------- what has to hold

  predicate Serves(route: Route, verb: string) {
    route.path !in DOCUMENTATION_PATHS && route.methods.Some? && verb in route.methods.value
  }

  /** The operations of one route, in the order they are visited. */
  function RouteOperations(route: Route, methods: seq<string>): seq<Operation> {
    if methods == [] then []
    else
      var before, verb := methods[..|methods| - 1], methods[|methods| - 1];
      if Serves(route, verb) then RouteOperations(route, before) + [Operation(route, verb)]
      else RouteOperations(route, before)
  }

  function Operations(routes: seq<Route>): seq<Operation> {
    if routes == [] then []
    else Operations(routes[..|routes| - 1]) + RouteOperations(routes[|routes| - 1], OPENAPI_METHODS)
  }

  /** The one rule that governs `op`. */
  ghost predicate Governs(registry: Registry, rule: Rule, op: Operation) {
    MatchingRules(registry, op) == [rule]
  }

  ghost predicate EachGoverned(registry: Registry, ops: seq<Operation>) {
    forall i | 0 <= i < |ops| :: |MatchingRules(registry, ops[i])| == 1
  }

  /** No two operations share method and shape. */
  ghost predicate NoClash(ops: seq<Operation>) {
    forall i, j | 0 <= i < j < |ops| :: ops[i].Key() != ops[j].Key()
  }

  /** Rule `i` is for the method of `op`, and its pattern matches the path. */
  ghost predicate Covers(rules: seq<Rule>, fullmatch: (string, string) -> bool, op: Operation, i: int) {
    0 <= i < |rules| && op.verb in rules[i].methods && fullmatch(rules[i].pattern, op.route.path)
  }

  /** Rule `i` covers `op` and no other does. */
  ghost predicate OnlyCovers(rules: seq<Rule>, fullmatch: (string, string) -> bool, op: Operation, i: int) {
    Covers(rules, fullmatch, op, i) && forall j :: Covers(rules, fullmatch, op, j) ==> j == i
  }

  lemma RestCovers(rules: seq<Rule>, fullmatch: (string, string) -> bool, op: Operation)
    requires rules != []
    ensures forall k :: Covers(rules[1..], fullmatch, op, k) ==> Covers(rules, fullmatch, op, k + 1)
    ensures forall k :: Covers(rules, fullmatch, op, k) && k != 0 ==> Covers(rules[1..], fullmatch, op, k - 1)
    ensures Covers(rules, fullmatch, op, 0) <==> Applies(rules[0], fullmatch, op)
  {
    assert forall k | 0 <= k < |rules| - 1 :: rules[1..][k] == rules[k + 1];
  }

  /** A single match is the one rule that covers the operation. */
  lemma {:induction false} SelectsTheOnlyOne(rules: seq<Rule>, fullmatch: (string, string) -> bool, op: Operation,
                                             rule: Rule)
    ensures Select(rules, fullmatch, op) == [rule] <==>
            exists i :: OnlyCovers(rules, fullmatch, op, i) && rules[i] == rule
  {
    if rules != [] {
      var rest := rules[1..];
      SelectsTheOnlyOne(rest, fullmatch, op, rule);
      SelectNone(rest, fullmatch, op);
      RestCovers(rules, fullmatch, op);
      hide Covers;
      if Applies(rules[0], fullmatch, op) {
        var selected := Select(rules, fullmatch, op);
        assert selected[0] == rules[0] && selected[1..] == Select(rest, fullmatch, op);
        if selected == [rule] {
          assert OnlyCovers(rules, fullmatch, op, 0);
        }
        if i :| OnlyCovers(rules, fullmatch, op, i) && rules[i] == rule {
          assert i == 0;
          assert forall k :: Covers(rest, fullmatch, op, k) ==> Covers(rules, fullmatch, op, k + 1);
          assert [rules[0]] + Select(rest, fullmatch, op) == [rule];
        }
      } else {
        if i :| OnlyCovers(rest, fullmatch, op, i) && rest[i] == rule {
          assert Covers(rules, fullmatch, op, i + 1);
          assert OnlyCovers(rules, fullmatch, op, i + 1);
        }
        if i :| OnlyCovers(rules, fullmatch, op, i) && rules[i] == rule {
          assert Covers(rest, fullmatch, op, i - 1);
          assert OnlyCovers(rest, fullmatch, op, i - 1);
        }
      }
    }
  }

  lemma {:induction false} SelectNone(rules: seq<Rule>, fullmatch: (string, string) -> bool, op: Operation)
    ensures Select(rules, fullmatch, op) == [] <==> forall j :: !Covers(rules, fullmatch, op, j)
  {
    if rules != [] {
      SelectNone(rules[1..], fullmatch, op);
      RestCovers(rules, fullmatch, op);
      hide Covers;
      if j :| Covers(rules[1..], fullmatch, op, j) {
        assert Covers(rules, fullmatch, op, j + 1);
      }
    }
  }

  /** No rule, one rule or several: what the number of matches says. */
  lemma MatchesCount(registry: Registry, op: Operation)
    ensures var rules, fullmatch, n := registry.rules, registry.fullmatch, |MatchingRules(registry, op)|;
            && (n == 0 <==> forall i :: !Covers(rules, fullmatch, op, i))
            && (n == 1 <==> exists i :: OnlyCovers(rules, fullmatch, op, i))
            && (n > 1 <==> exists i, j :: i != j && Covers(rules, fullmatch, op, i) && Covers(rules, fullmatch, op, j))
  {
    var rules, fullmatch, matches := registry.rules, registry.fullmatch, MatchingRules(registry, op);
    SelectNone(rules, fullmatch, op);
    if |matches| == 1 {
      SelectsTheOnlyOne(rules, fullmatch, op, matches[0]);
    }
    if i :| OnlyCovers(rules, fullmatch, op, i) {
      SelectsTheOnlyOne(rules, fullmatch, op, rules[i]);
    } else if i :| Covers(rules, fullmatch, op, i) {
      assert !OnlyCovers(rules, fullmatch, op, i);
      var j :| Covers(rules, fullmatch, op, j) && j != i;
    }
  }

  lemma {:induction false} RouteOperationsAre(route: Route, methods: seq<string>, op: Operation)
    ensures op in RouteOperations(route, methods) <==> op.route == route && op.verb in methods && Serves(route, op.verb)
  {
    if methods != [] {
      RouteOperationsAre(route, methods[..|methods| - 1], op);
      assert methods == methods[..|methods| - 1] + [methods[|methods| - 1]];
    }
  }

  /** A mounted route serves this method, the method is one that OpenAPI describes, and the route is none of the
      documentation's own. */
  ghost predicate Mounted(routes: seq<Route>, op: Operation) {
    && op.route in routes && op.route.methods.Some? && op.verb in op.route.methods.value
    && op.verb in {"GET", "HEAD", "OPTIONS", "POST", "PUT", "PATCH", "DELETE", "TRACE"}
    && op.route.path !in {"/openapi.json", "/docs", "/docs/oauth2-redirect", "/redoc"}
  }

  /** The registry covers exactly the operations of mounted, undocumented routes. */
  lemma {:induction false} OperationsAre(routes: seq<Route>, op: Operation)
    ensures op in Operations(routes) <==> Mounted(routes, op)
  {
    if routes != [] {
      OperationsAre(routes[..|routes| - 1], op);
      RouteOperationsAre(routes[|routes| - 1], OPENAPI_METHODS, op);
      assert routes == routes[..|routes| - 1] + [routes[|routes| - 1]];
    }
  }

  // ---------------------------------------------------------------- sorting by (path, method)

  lemma CodesAreUnique(a: string, b: string)
    requires Codes(a) == Codes(b)
    ensures a == b
  {
    assert |a| == |b|;
    forall i | 0 <= i < |a|
      ensures a[i] == b[i]
    {
      assert Codes(a)[i] == Codes(b)[i];
    }
  }

  predicate PolicyBefore(a: Policy, b: Policy) {
    Less(Codes(a.path), Codes(b.path)) || (a.path == b.path && Less(Codes(a.verb), Codes(b.verb)))
  }

  predicate SameIdentity(a: Policy, b: Policy) {
    a.verb == b.verb && a.path == b.path
  }

  lemma PolicyBeforeIsTotal(a: Policy, b: Policy)
    ensures PolicyBefore(a, b) || SameIdentity(a, b) || PolicyBefore(b, a)
  {
    LessIsTotal(Codes(a.path), Codes(b.path));
    LessIsTotal(Codes(a.verb), Codes(b.verb));
    if Codes(a.path) == Codes(b.path) {
      CodesAreUnique(a.path, b.path);
    }
    if Codes(a.verb) == Codes(b.verb) {
      CodesAreUnique(a.verb, b.verb);
    }
  }

  lemma PolicyBeforeIsTransitive(a: Policy, b: Policy, c: Policy)
    requires PolicyBefore(a, b) && PolicyBefore(b, c)
    ensures PolicyBefore(a, c)
  {
    hide Codes;
    if Less(Codes(a.path), Codes(b.path)) && Less(Codes(b.path), Codes(c.path)) {
      LessIsTransitive(Codes(a.path), Codes(b.path), Codes(c.path));
    } else if a.path == b.path && b.path == c.path {
      LessIsTransitive(Codes(a.verb), Codes(b.verb), Codes(c.verb));
    }
  }

  ghost predicate Ascending(policies: seq<Policy>) {
    forall i, j | 0 <= i < j < |policies| :: PolicyBefore(policies[i], policies[j])
  }

  /** Character by character `a` comes before `b`: it ends first, or differs first by a smaller character. */
  ghost predicate Earlier(a: string, b: string) {
    exists k :: 0 <= k <= |a| && k < |b| && a[..k] == b[..k] && (k == |a| || a[k] < b[k])
  }

  /** Strictly sorted by path, and by method under one path. */
  ghost predicate InPathOrder(policies: seq<Policy>) {
    forall i, j | 0 <= i < j < |policies| ::
      var p, q := policies[i], policies[j];
      Earlier(p.path, q.path) || (p.path == q.path && Earlier(p.verb, q.verb))
  }

  lemma LessIsEarlier(a: string, b: string)
    requires Less(Codes(a), Codes(b))
    ensures Earlier(a, b)
  {
    var k := FirstDifference(Codes(a), Codes(b));
    assert forall i | 0 <= i < k :: Codes(a)[i] == Codes(a)[..k][i] && Codes(b)[i] == Codes(b)[..k][i];
    assert a[..k] == b[..k];
  }

  lemma AscendingIsPathOrder(policies: seq<Policy>)
    requires Ascending(policies)
    ensures InPathOrder(policies)
  {
    hide Less, Earlier, Codes;
    forall i, j | 0 <= i < j < |policies|
      ensures var p, q := policies[i], policies[j];
              Earlier(p.path, q.path) || (p.path == q.path && Earlier(p.verb, q.verb))
    {
      var p, q := policies[i], policies[j];
      if Less(Codes(p.path), Codes(q.path)) {
        LessIsEarlier(p.path, q.path);
      } else {
        LessIsEarlier(p.verb, q.verb);
      }
    }
  }

  ghost predicate DistinctIdentities(policies: seq<Policy>) {
    forall i, j | 0 <= i < j < |policies| :: !SameIdentity(policies[i], policies[j])
  }

  function InsertPolicy(p: Policy, policies: seq<Policy>): seq<Policy> {
    if policies == [] || PolicyBefore(p, policies[0]) then [p] + policies
    else [policies[0]] + InsertPolicy(p, policies[1..])
  }

  function SortPolicies(policies: seq<Policy>): seq<Policy> {
    if policies == [] then [] else InsertPolicy(policies[0], SortPolicies(policies[1..]))
  }

  lemma {:induction false} InsertKeepsAll(p: Policy, policies: seq<Policy>)
    ensures multiset(InsertPolicy(p, policies)) == multiset{p} + multiset(policies)
  {
    if policies != [] && !PolicyBefore(p, policies[0]) {
      InsertKeepsAll(p, policies[1..]);
      assert policies == [policies[0]] + policies[1..];
    }
  }

  lemma {:induction false} InsertAscends(p: Policy, policies: seq<Policy>)
    requires Ascending(policies) && forall q | q in policies :: !SameIdentity(p, q)
    ensures Ascending(InsertPolicy(p, policies))
  {
    hide PolicyBefore;
    if policies != [] {
      assert policies[0] in policies;
      PolicyBeforeIsTotal(p, policies[0]);
      if PolicyBefore(p, policies[0]) {
        forall i | 0 < i < |policies|
          ensures PolicyBefore(p, policies[i])
        {
          PolicyBeforeIsTransitive(p, policies[0], policies[i]);
        }
      } else {
        InsertAscends(p, policies[1..]);
        InsertKeepsAll(p, policies[1..]);
        var rest := InsertPolicy(p, policies[1..]);
        forall i | 0 <= i < |rest|
          ensures PolicyBefore(policies[0], rest[i])
        {
          assert rest[i] in multiset(rest);
          if rest[i] != p {
            assert rest[i] in policies[1..];
          }
        }
      }
    }
  }

  /** Sorting keeps every policy and, when no identity occurs twice, puts them in strict order. */
  lemma {:induction false} SortedWell(policies: seq<Policy>)
    ensures multiset(SortPolicies(policies)) == multiset(policies)
    ensures DistinctIdentities(policies) ==> Ascending(SortPolicies(policies))
  {
    hide PolicyBefore;
    if policies != [] {
      var rest := policies[1..];
      SortedWell(rest);
      InsertKeepsAll(policies[0], SortPolicies(rest));
      assert policies == [policies[0]] + rest;
      if DistinctIdentities(policies) {
        forall q | q in SortPolicies(rest)
          ensures !SameIdentity(policies[0], q)
        {
          assert q in multiset(SortPolicies(rest));
          assert q in rest;
        }
        InsertAscends(policies[0], SortPolicies(rest));
      }
    }
  }

  // ---------------------------------------------------------------- building the registry

  function PoliciesOf(registry: Registry, ops: seq<Operation>): seq<Policy> {
    if ops == [] then []
    else
      var before, op := PoliciesOf(registry, ops[..|ops| - 1]), ops[|ops| - 1];
      if |MatchingRules(registry, op)| == 1 then before + [Expand(MatchingRules(registry, op)[0], op)] else before
  }

  /** The operations with no matching rule, or with several. */
  function Faulty(registry: Registry, ops: seq<Operation>, several: bool): seq<Operation> {
    if ops == [] then []
    else
      var before, op := Faulty(registry, ops[..|ops| - 1], several), ops[|ops| - 1];
      var n := |MatchingRules(registry, op)|;
      if (if several then n > 1 else n == 0) then before + [op] else before
  }

  type Shapes = map<(string, string), seq<string>>

  /** route_shapes.setdefault(key, []).append(path) */
  function AddShape(shapes: Shapes, op: Operation): Shapes {
    var paths := if op.Key() in shapes then shapes[op.Key()] else [];
    shapes[op.Key() := paths + [op.route.path]]
  }

  function ShapesOf(ops: seq<Operation>): Shapes {
    if ops == [] then map[] else AddShape(ShapesOf(ops[..|ops| - 1]), ops[|ops| - 1])
  }

  /** The shapes under which different paths are mounted. */
  function Duplicates(shapes: Shapes): set<(string, string)> {
    set key | key in shapes && exists i | 0 <= i < |shapes[key]| :: shapes[key][i] != shapes[key][0]
  }

  datatype Result =
    | Built(policies: seq<Policy>)
    | Incomplete(unmatched: seq<Operation>, ambiguous: seq<Operation>, duplicates: set<(string, string)>)
    | DuplicateIdentities

  lemma {:induction false} ShapesHold(ops: seq<Operation>, key: (string, string), path: string)
    ensures (key in ShapesOf(ops) && path in ShapesOf(ops)[key]) <==>
            exists i :: 0 <= i < |ops| && ops[i].Key() == key && ops[i].route.path == path
    ensures key in ShapesOf(ops) ==> ShapesOf(ops)[key] != []
  {
    if ops != [] {
      var before, op := ops[..|ops| - 1], ops[|ops| - 1];
      ShapesHold(before, key, path);
      if i :| 0 <= i < |before| && before[i].Key() == key && before[i].route.path == path {
        assert ops[i].Key() == key && ops[i].route.path == path;
      }
      if i :| 0 <= i < |ops| && ops[i].Key() == key && ops[i].route.path == path {
        if i < |before| {
          assert before[i].Key() == key && before[i].route.path == path;
        }
      }
    }
  }

  /** Two operations with one shape and different paths. */
  ghost predicate Clash(ops: seq<Operation>, i: int, j: int) {
    0 <= i < |ops| && 0 <= j < |ops| && ops[i].Key() == ops[j].Key() && ops[i].route.path != ops[j].route.path
  }

  /** One operation mounted twice: same method, same path. */
  ghost predicate Twice(ops: seq<Operation>, i: int, j: int) {
    0 <= i < j < |ops| && ops[i].verb == ops[j].verb && ops[i].route.path == ops[j].route.path
  }

  /** Without clashing paths, shapes are shared only by operations mounted twice. */
  lemma TwiceIsNoClash(ops: seq<Operation>)
    requires forall i, j :: !Clash(ops, i, j)
    ensures NoClash(ops) <==> !exists i, j :: Twice(ops, i, j)
  {
    hide RouteShapes.RouteShape;
    forall i, j | 0 <= i < j < |ops|
      ensures ops[i].Key() == ops[j].Key() <==> Twice(ops, i, j)
    {
      assert !Clash(ops, i, j);
    }
  }

  lemma DuplicatesAreClashes(ops: seq<Operation>, key: (string, string))
    ensures key in Duplicates(ShapesOf(ops)) <==> exists i, j :: Clash(ops, i, j) && ops[i].Key() == key
  {
    var shapes := ShapesOf(ops);
    if key in Duplicates(shapes) {
      var k :| 0 <= k < |shapes[key]| && shapes[key][k] != shapes[key][0];
      var p, q := shapes[key][k], shapes[key][0];
      ShapesHold(ops, key, p);
      ShapesHold(ops, key, q);
      var i :| 0 <= i < |ops| && ops[i].Key() == key && ops[i].route.path == p;
      var j :| 0 <= j < |ops| && ops[j].Key() == key && ops[j].route.path == q;
      assert Clash(ops, i, j);
    }
    if i, j :| Clash(ops, i, j) && ops[i].Key() == key {
      ShapesHold(ops, key, ops[i].route.path);
      ShapesHold(ops, key, ops[j].route.path);
      var a :| 0 <= a < |shapes[key]| && shapes[key][a] == ops[i].route.path;
      var b :| 0 <= b < |shapes[key]| && shapes[key][b] == ops[j].route.path;
    }
  }

  lemma {:induction false} PoliciesWhenGoverned(registry: Registry, ops: seq<Operation>)
    requires EachGoverned(registry, ops)
    ensures |PoliciesOf(registry, ops)| == |ops|
    ensures forall i | 0 <= i < |ops| ::
            PoliciesOf(registry, ops)[i] == Expand(MatchingRules(registry, ops[i])[0], ops[i])
  {
    hide MatchingRules, Expand;
    if ops != [] {
      PoliciesWhenGoverned(registry, ops[..|ops| - 1]);
    }
  }

  lemma {:induction false} FaultyAre(registry: Registry, ops: seq<Operation>, several: bool, op: Operation)
    ensures op in Faulty(registry, ops, several) <==>
            op in ops && if several then |MatchingRules(registry, op)| > 1 else |MatchingRules(registry, op)| == 0
  {
    if ops != [] {
      FaultyAre(registry, ops[..|ops| - 1], several, op);
      assert ops == ops[..|ops| - 1] + [ops[|ops| - 1]];
    }
  }

  lemma NoFaultMeansGoverned(registry: Registry, ops: seq<Operation>)
    ensures Faulty(registry, ops, false) == [] && Faulty(registry, ops, true) == [] <==> EachGoverned(registry, ops)
  {
    forall i | 0 <= i < |ops|
      ensures |MatchingRules(registry, ops[i])| == 1 <==>
              ops[i] !in Faulty(registry, ops, false) && ops[i] !in Faulty(registry, ops, true)
    {
      FaultyAre(registry, ops, false, ops[i]);
      FaultyAre(registry, ops, true, ops[i]);
    }
    if EachGoverned(registry, ops) {
      forall several: bool
        ensures Faulty(registry, ops, several) == []
      {
        var faulty := Faulty(registry, ops, several);
        forall op
          ensures op !in faulty
        {
          FaultyAre(registry, ops, several, op);
        }
        assert forall k | 0 <= k < |faulty| :: faulty[k] in faulty;
      }
    }
  }

  /** Without clashing paths, distinct identities are the same as distinct shapes. */
  lemma IdentitiesAndShapes(registry: Registry, ops: seq<Operation>)
    requires EachGoverned(registry, ops) && forall i, j :: !Clash(ops, i, j)
    ensures DistinctIdentities(PoliciesOf(registry, ops)) <==> NoClash(ops)
  {
    hide MatchingRules;
    PoliciesWhenGoverned(registry, ops);
    var policies := PoliciesOf(registry, ops);
    forall i, j | 0 <= i < j < |ops|
      ensures SameIdentity(policies[i], policies[j]) <==> ops[i].Key() == ops[j].Key()
    {
      assert !Clash(ops, i, j);
    }
  }

  /** What the policy `p` of an operation under a rule has to say. */
  ghost predicate Describes(rule: Rule, op: Operation, p: Policy) {
    && p.verb == op.verb && p.path == op.route.path && p.operationId == op.route.operationId
    && p.requestSchema == op.route.requestSchema && p.responseSchema == op.route.responseSchema
    && p.rule == rule.name && p.profile == rule.profile
    && (op.verb in {"GET", "HEAD", "OPTIONS"} ==>
          && p.idempotencyKeyPolicy == p.requestHashPolicy == p.ifMatchPolicy == "not-applicable"
          && p.emittedEffect == "none")
    && (op.verb !in {"GET", "HEAD", "OPTIONS"} ==>
          && p.idempotencyKeyPolicy == rule.idempotencyKeyPolicy && p.requestHashPolicy == rule.requestHashPolicy
          && p.ifMatchPolicy == rule.ifMatchPolicy && p.emittedEffect == rule.emittedEffect)
    && (op.route.deprecated ==> p.deprecationStatus == "deprecated")
    && (!op.route.deprecated ==> p.deprecationStatus == rule.deprecationStatus)
  }

  /** `p` describes a mounted operation under the only rule that covers it. */
  ghost predicate Belongs(registry: Registry, routes: seq<Route>, op: Operation, i: int, p: Policy) {
    && Mounted(routes, op) && OnlyCovers(registry.rules, registry.fullmatch, op, i)
    && Describes(registry.rules[i], op, p)
  }

  /** Exactly one rule covers each mounted operation. */
  ghost predicate EachCoveredOnce(registry: Registry, routes: seq<Route>) {
    forall op | Mounted(routes, op) :: exists i :: OnlyCovers(registry.rules, registry.fullmatch, op, i)
  }

  lemma CoveredOnceIsGoverned(registry: Registry, routes: seq<Route>)
    ensures EachCoveredOnce(registry, routes) <==> EachGoverned(registry, Operations(routes))
  {
    hide Mounted, OnlyCovers, Operations, MatchingRules;
    var ops := Operations(routes);
    forall op
      ensures op in ops <==> Mounted(routes, op)
      ensures |MatchingRules(registry, op)| == 1 <==> exists i :: OnlyCovers(registry.rules, registry.fullmatch, op, i)
    {
      OperationsAre(routes, op);
      MatchesCount(registry, op);
    }
    if EachGoverned(registry, ops) {
      forall op | Mounted(routes, op)
        ensures exists i :: OnlyCovers(registry.rules, registry.fullmatch, op, i)
      {
        var k :| 0 <= k < |ops| && ops[k] == op;
      }
    }
  }

  lemma ExpandDescribes(rule: Rule, op: Operation, p: Policy)
    ensures p == Expand(rule, op) <==> Describes(rule, op, p)
  {
  }

  lemma PoliciesBelong(registry: Registry, routes: seq<Route>, p: Policy)
    ensures IsPolicyOf(registry, Operations(routes), p) <==> exists op, i :: Belongs(registry, routes, op, i, p)
  {
    hide Mounted, Operations, Expand, Describes;
    var ops := Operations(routes);
    if k, rule :| 0 <= k < |ops| && Governs(registry, rule, ops[k]) && p == Expand(rule, ops[k]) {
      OperationsAre(routes, ops[k]);
      SelectsTheOnlyOne(registry.rules, registry.fullmatch, ops[k], rule);
      var i :| OnlyCovers(registry.rules, registry.fullmatch, ops[k], i) && registry.rules[i] == rule;
      ExpandDescribes(rule, ops[k], p);
      assert Belongs(registry, routes, ops[k], i, p);
    }
    if op, i :| Belongs(registry, routes, op, i, p) {
      OperationsAre(routes, op);
      var k :| 0 <= k < |ops| && ops[k] == op;
      SelectsTheOnlyOne(registry.rules, registry.fullmatch, op, registry.rules[i]);
      ExpandDescribes(registry.rules[i], op, p);
      assert Governs(registry, registry.rules[i], ops[k]) && p == Expand(registry.rules[i], ops[k]);
    }
  }

  /** `p` is the expansion of the one rule that matches some operation. */
  ghost predicate IsPolicyOf(registry: Registry, ops: seq<Operation>, p: Policy) {
    exists i, rule :: 0 <= i < |ops| && Governs(registry, rule, ops[i]) && p == Expand(rule, ops[i])
  }

  predicate HasDuplicates(policies: seq<Policy>) {
    exists i, j | 0 <= i < j < |policies| :: SameIdentity(policies[i], policies[j])
  }

  /** The nested loops: every operation is filed under its shape and as matched, unmatched or ambiguous. */
  method Collect(registry: Registry, routes: seq<Route>)
    returns (policies: seq<Policy>, unmatched: seq<Operation>, ambiguous: seq<Operation>, shapes: Shapes)
    ensures policies == PoliciesOf(registry, Operations(routes)) && shapes == ShapesOf(Operations(routes))
    ensures unmatched == Faulty(registry, Operations(routes), false) &&
            ambiguous == Faulty(registry, Operations(routes), true)
  {
    hide MatchingRules, AddShape, Expand;
    policies, unmatched, ambiguous, shapes := [], [], [], map[];
    ghost var done: seq<Operation> := [];
    for r := 0 to |routes|
      invariant done == Operations(routes[..r])
      invariant policies == PoliciesOf(registry, done) && shapes == ShapesOf(done)
      invariant unmatched == Faulty(registry, done, false) && ambiguous == Faulty(registry, done, true)
    {
      var route := routes[r];
      for m := 0 to |OPENAPI_METHODS|
        invariant done == Operations(routes[..r]) + RouteOperations(route, OPENAPI_METHODS[..m])
        invariant policies == PoliciesOf(registry, done) && shapes == ShapesOf(done)
        invariant unmatched == Faulty(registry, done, false) && ambiguous == Faulty(registry, done, true)
      {
        RouteOperationsStep(route, OPENAPI_METHODS, m);
        if Serves(route, OPENAPI_METHODS[m]) {
          var op := Operation(route, OPENAPI_METHODS[m]);
          CollectStep(registry, done, op);
          done := done + [op];
          shapes := AddShape(shapes, op);
          var matches := MatchingRules(registry, op);
          if matches == [] {
            unmatched := unmatched + [op];
          } else if |matches| != 1 {
            ambiguous := ambiguous + [op];
          } else {
            policies := policies + [Expand(matches[0], op)];
          }
        }
      }
      assert OPENAPI_METHODS[..|OPENAPI_METHODS|] == OPENAPI_METHODS;
      assert routes[..r + 1][..r] == routes[..r];
    }
    assert routes[..|routes|] == routes;
  }

  lemma RouteOperationsStep(route: Route, methods: seq<string>, m: nat)
    requires m < |methods|
    ensures RouteOperations(route, methods[..m + 1]) ==
            RouteOperations(route, methods[..m]) +
            if Serves(route, methods[m]) then [Operation(route, methods[m])] else []
  {
    assert methods[..m + 1][..m] == methods[..m];
  }

  lemma CollectStep(registry: Registry, ops: seq<Operation>, op: Operation)
    ensures PoliciesOf(registry, ops + [op]) == PoliciesOf(registry, ops) +
              if |MatchingRules(registry, op)| == 1 then [Expand(MatchingRules(registry, op)[0], op)] else []
    ensures forall several :: Faulty(registry, ops + [op], several) == Faulty(registry, ops, several) +
              if (if several then |MatchingRules(registry, op)| > 1 else |MatchingRules(registry, op)| == 0) then [op]
                 else []
    ensures ShapesOf(ops + [op]) == AddShape(ShapesOf(ops), op)
  {
    hide MatchingRules, AddShape, Expand;
    assert (ops + [op])[..|ops|] == ops;
  }

  method BuildEndpointPolicies(registry: Registry, routes: seq<Route>) returns (result: Result)
    ensures result.Built? <==> EachCoveredOnce(registry, routes) && NoClash(Operations(routes))
    ensures result.Built? ==> InPathOrder(result.policies) && |result.policies| == |Operations(routes)|
    ensures result.Built? ==> forall p :: p in result.policies <==> exists op, i :: Belongs(registry, routes, op, i, p)
    ensures result.Incomplete? ==>
              && (forall op :: op in result.unmatched <==>
                    Mounted(routes, op) && forall i :: !Covers(registry.rules, registry.fullmatch, op, i))
              && (forall op :: op in result.ambiguous <==>
                    Mounted(routes, op) && exists i, j :: i != j && Covers(registry.rules, registry.fullmatch, op, i) &&
                                                          Covers(registry.rules, registry.fullmatch, op, j))
              && (forall key :: key in result.duplicates <==>
                    exists i, j :: Clash(Operations(routes), i, j) && Operations(routes)[i].Key() == key)
              && (result.unmatched != [] || result.ambiguous != [] || result.duplicates != {})
    ensures result.DuplicateIdentities? <==>
              && EachCoveredOnce(registry, routes) && (forall i, j :: !Clash(Operations(routes), i, j))
              && exists i, j :: Twice(Operations(routes), i, j)
  {
    hide MatchingRules, ShapesOf, PoliciesOf, Faulty, Operations, EachGoverned, NoClash, Clash, Twice, SortPolicies,
         IsPolicyOf, Covers, OnlyCovers, Mounted, Belongs, EachCoveredOnce, InPathOrder;
    var policies, unmatched, ambiguous, shapes := Collect(registry, routes);
    var duplicates := Duplicates(shapes);
    Findings(registry, Operations(routes), duplicates);
    CoveredOnceIsGoverned(registry, routes);
    if unmatched != [] || ambiguous != [] || duplicates != {} {
      forall op
        ensures op in Operations(routes) <==> Mounted(routes, op)
        ensures |MatchingRules(registry, op)| == 0 <==> forall i :: !Covers(registry.rules, registry.fullmatch, op, i)
        ensures |MatchingRules(registry, op)| > 1 <==>
                exists i, j :: i != j && Covers(registry.rules, registry.fullmatch, op, i) &&
                               Covers(registry.rules, registry.fullmatch, op, j)
      {
        OperationsAre(routes, op);
        MatchesCount(registry, op);
      }
      return Incomplete(unmatched, ambiguous, duplicates);
    }
    IdentitiesAndShapes(registry, Operations(routes));
    TwiceIsNoClash(Operations(routes));
    if HasDuplicates(policies) {
      return DuplicateIdentities;
    }
    PoliciesAre(registry, Operations(routes));
    forall p
      ensures IsPolicyOf(registry, Operations(routes), p) <==> exists op, i :: Belongs(registry, routes, op, i, p)
    {
      PoliciesBelong(registry, routes, p);
    }
    result := Built(SortPolicies(policies));
    AscendingIsPathOrder(result.policies);
  }

  /** What the collected lists say about the operations. */
  lemma Findings(registry: Registry, ops: seq<Operation>, duplicates: set<(string, string)>)
    requires duplicates == Duplicates(ShapesOf(ops))
    ensures Faulty(registry, ops, false) == [] && Faulty(registry, ops, true) == [] <==> EachGoverned(registry, ops)
    ensures forall op :: op in Faulty(registry, ops, false) <==> op in ops && |MatchingRules(registry, op)| == 0
    ensures forall op :: op in Faulty(registry, ops, true) <==> op in ops && |MatchingRules(registry, op)| > 1
    ensures forall key :: key in duplicates <==> exists i, j :: Clash(ops, i, j) && ops[i].Key() == key
    ensures duplicates == {} <==> forall i, j :: !Clash(ops, i, j)
    ensures NoClash(ops) ==> duplicates == {}
  {
    hide MatchingRules, ShapesOf, Duplicates, Faulty;
    NoFaultMeansGoverned(registry, ops);
    forall op
      ensures op in Faulty(registry, ops, false) <==> op in ops && |MatchingRules(registry, op)| == 0
      ensures op in Faulty(registry, ops, true) <==> op in ops && |MatchingRules(registry, op)| > 1
    {
      FaultyAre(registry, ops, false, op);
      FaultyAre(registry, ops, true, op);
    }
    forall key
      ensures key in duplicates <==> exists i, j :: Clash(ops, i, j) && ops[i].Key() == key
    {
      DuplicatesAreClashes(ops, key);
    }
    if i, j :| Clash(ops, i, j) {
      assert ops[i].Key() in duplicates;
    }
  }

  /** The sorted result holds exactly the expansion of every operation. */
  lemma PoliciesAre(registry: Registry, ops: seq<Operation>)
    requires EachGoverned(registry, ops) && DistinctIdentities(PoliciesOf(registry, ops))
    ensures var sorted := SortPolicies(PoliciesOf(registry, ops));
            && Ascending(sorted) && |sorted| == |ops|
            && forall p :: p in sorted <==> IsPolicyOf(registry, ops, p)
  {
    hide MatchingRules, Expand, SortPolicies, Ascending;
    var policies := PoliciesOf(registry, ops);
    PoliciesWhenGoverned(registry, ops);
    SortedWell(policies);
    var sorted := SortPolicies(policies);
    assert |sorted| == |multiset(sorted)| == |multiset(policies)|;
    forall p
      ensures p in sorted <==> IsPolicyOf(registry, ops, p)
    {
      assert p in sorted <==> p in multiset(policies);
      if p in policies {
        var i :| 0 <= i < |policies| && policies[i] == p;
        assert Governs(registry, MatchingRules(registry, ops[i])[0], ops[i]);
      }
      if i, rule :| 0 <= i < |ops| && Governs(registry, rule, ops[i]) && p == Expand(rule, ops[i]) {
        assert policies[i] == p;
      }
    }
  }
}

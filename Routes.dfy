/**
  What `PluginBuilder` reads from a plugin's `[routes]` table and `router.rs`
  when it generates the backend glue: the route list of the manifest
  (`extract_routes`), the exported handlers (`extract_handlers`,
  `has_routes`), the plugin struct name, the escaping of embedded string
  literals and the shape of each handler call.
 */
module Routes {
  import opened Wrappers
  import opened Text

  /** A value of the `[routes]` table: only string values name a handler. */
  datatype TomlValue = Str(s: string) | NonString

  /** The `[routes]` table, in the table's iteration order. */
  type RouteTable = seq<(string, TomlValue)>

  /** The plugin's `Cargo.toml`, as far as the routes table is concerned. */
  datatype CargoToml =
    | NoCargo                                // the file does not exist
    | CargoUnreadable                        // it exists but cannot be read
    | CargoParsed(routes: Option<RouteTable>) // None: not TOML, or `routes` missing or not a table

  /** The table the loops iterate over; every case without one iterates over nothing. */
  function TableOf(cargo: CargoToml): RouteTable
  {
    if cargo.CargoParsed? && cargo.routes.Some? then cargo.routes.value else []
  }

  /**
    `has_routes`: the file parses and holds a non-empty `routes` table. A
    missing or unreadable file has none.
   */
  function HasRoutes(cargo: CargoToml): (r: bool)
    ensures r <==> TableOf(cargo) != []
    ensures cargo == NoCargo || cargo == CargoUnreadable ==> !r
  {
    cargo.CargoParsed? && cargo.routes.Some? && |cargo.routes.value| > 0
  }

  // ---------------------------------------------------------------------------
  // extract_routes

  datatype Route = Route(httpMethod: string, path: string, handler: string)

  /** `key.splitn(2, ' ')` when it yields two parts. */
  function SplitAtFirstSpace(key: string): (r: Option<(string, string)>)
    ensures r.None? <==> ' ' !in key
    ensures r.Some? ==> ' ' !in r.value.0 && r.value.0 + " " + r.value.1 == key
  {
    match FirstIndex(key, ' ')
    case None => None
    case Some(i) =>
      assert key == key[..i] + " " + key[i + 1..];
      Some((key[..i], key[i + 1..]))
  }

  /** The method is the text before the first space, whatever follows it. */
  lemma SplitAtFirstSpaceUnique(key: string, m: string, p: string)
    requires ' ' !in m && m + " " + p == key
    ensures SplitAtFirstSpace(key) == Some((m, p))
  {
    assert key == m + (" " + p);
    FirstIndexAfterPrefix(m, " " + p, ' ');
    assert key[..|m|] == m;
    assert key[|m| + 1..] == p;
  }

  /** The entry one table row contributes to the manifest, if any. */
  function RouteOf(entry: (string, TomlValue)): Option<Route>
  {
    match (entry.1, SplitAtFirstSpace(entry.0))
    case (Str(h), Some((m, p))) => Some(Route(m, p, h))
    case _ => None
  }

  lemma RouteOfMeaning(key: string, v: TomlValue, rt: Route)
    ensures RouteOf((key, v)) == Some(rt) <==>
      v == Str(rt.handler) && ' ' !in rt.httpMethod && rt.httpMethod + " " + rt.path == key
  {
    if v == Str(rt.handler) && ' ' !in rt.httpMethod && rt.httpMethod + " " + rt.path == key {
      SplitAtFirstSpaceUnique(key, rt.httpMethod, rt.path);
    }
  }

  /** The routes of a table, in table order. */
  function RoutesOf(t: RouteTable): (r: seq<Route>)
    ensures |r| <= |t|
  {
    if t == [] then []
    else
      var rest := RoutesOf(t[..|t| - 1]);
      match RouteOf(t[|t| - 1])
      case Some(rt) => rest + [rt]
      case None => rest
  }

  /** Every row with a string value and a space in its key gives a route. */
  lemma {:induction false} RoutesOfComplete(t: RouteTable, k: nat)
    requires k < |t| && RouteOf(t[k]).Some?
    ensures RouteOf(t[k]).value in RoutesOf(t)
  {
    if k < |t| - 1 {
      assert t[..|t| - 1][k] == t[k];
      RoutesOfComplete(t[..|t| - 1], k);
    }
  }

  /** Every route comes from a row of the table. */
  lemma {:induction false} RoutesOfSound(t: RouteTable, rt: Route)
    requires rt in RoutesOf(t)
    ensures exists k :: 0 <= k < |t| && RouteOf(t[k]) == Some(rt)
  {
    var init := t[..|t| - 1];
    if rt in RoutesOf(init) {
      RoutesOfSound(init, rt);
      var k :| 0 <= k < |init| && RouteOf(init[k]) == Some(rt);
      assert t[k] == init[k];
    } else {
      assert RouteOf(t[|t| - 1]) == Some(rt);
    }
  }

  /**
    `extract_routes`: an unreadable Cargo.toml is an error; otherwise one
    entry per string-valued row whose key has a space.
   */
  method ExtractRoutes(cargo: CargoToml) returns (r: Result<seq<Route>>)
    ensures r.Err? <==> cargo == CargoUnreadable
    ensures r.Ok? ==> r.value == RoutesOf(TableOf(cargo))
  {
    if cargo == CargoUnreadable {
      return Err("cannot read Cargo.toml");
    }
    var table := TableOf(cargo);
    var routes: seq<Route> := [];
    for i := 0 to |table|
      invariant routes == RoutesOf(table[..i])
    {
      assert table[..i + 1][..i] == table[..i];
      var (key, value) := table[i];
      if value.Str? {
        var parts := SplitAtFirstSpace(key);
        if parts.Some? {
          routes := routes + [Route(parts.value.0, parts.value.1, value.s)];
        }
      }
    }
    assert table[..|table|] == table;
    return Ok(routes);
  }

  // ---------------------------------------------------------------------------
  // extract_handlers

  datatype Handler = Handler(name: string, takesRequest: bool)

  /**
    `router.rs`, as far as the handlers are concerned: for each handler with
    a `pub async fn <name>(...)` line, the text between its parentheses.
   */
  datatype RouterFile =
    | NoRouter
    | RouterUnreadable
    | RouterSource(params: map<string, string>)

  /** The handler names of a table: string values, each once, in first-seen order. */
  function HandlerNames(t: RouteTable): (r: seq<string>)
    ensures |r| <= |t|
  {
    if t == [] then []
    else
      var rest := HandlerNames(t[..|t| - 1]);
      match t[|t| - 1].1
      case Str(h) => if h in rest then rest else rest + [h]
      case NonString => rest
  }

  predicate Distinct<T(==)>(s: seq<T>)
  {
    forall i, j :: 0 <= i < j < |s| ==> s[i] != s[j]
  }

  lemma {:induction false} HandlerNamesDistinct(t: RouteTable)
    ensures Distinct(HandlerNames(t))
  {
    if t != [] {
      var rest := HandlerNames(t[..|t| - 1]);
      HandlerNamesDistinct(t[..|t| - 1]);
      if t[|t| - 1].1.Str? && t[|t| - 1].1.s !in rest {
        var r := rest + [t[|t| - 1].1.s];
        forall i, j | 0 <= i < j < |r| ensures r[i] != r[j] {
          assert r[i] == rest[i];
        }
      }
    }
  }

  lemma {:induction false} HandlerNamesComplete(t: RouteTable, k: nat)
    requires k < |t| && t[k].1.Str?
    ensures t[k].1.s in HandlerNames(t)
  {
    if k < |t| - 1 {
      assert t[..|t| - 1][k] == t[k];
      HandlerNamesComplete(t[..|t| - 1], k);
    }
  }

  lemma {:induction false} HandlerNamesSound(t: RouteTable, h: string)
    requires h in HandlerNames(t)
    ensures exists k :: 0 <= k < |t| && t[k].1 == Str(h)
  {
    var init := t[..|t| - 1];
    if h in HandlerNames(init) {
      HandlerNamesSound(init, h);
      var k :| 0 <= k < |init| && init[k].1 == Str(h);
      assert t[k] == init[k];
    } else {
      assert t[|t| - 1].1 == Str(h);
    }
  }

  /**
    First-seen order: the handlers of a prefix of the table are a prefix of
    the handlers of the whole table, so a later row never moves an earlier name.
   */
  lemma {:induction false} HandlerNamesPrefix(t: RouteTable, i: nat)
    requires i <= |t|
    ensures var p := HandlerNames(t[..i]); |p| <= |HandlerNames(t)| && HandlerNames(t)[..|p|] == p
    decreases |t| - i
  {
    if i < |t| {
      HandlerNamesPrefix(t, i + 1);
      assert t[..i + 1][..i] == t[..i];
    } else {
      assert t[..i] == t;
    }
  }

  /** The parameter test of `extract_handlers`, on the captured text. */
  predicate TakesRequestText(params: string)
  {
    var p := Trim(params);
    p != [] && (Contains(p, "HttpRequest") || Contains(p, "Request") || Contains(p, ":"))
  }

  /** Whether a handler is called with the request; false when `router.rs` has no match. */
  predicate TakesRequest(router: RouterFile, name: string)
  {
    router.RouterSource? && name in router.params && TakesRequestText(router.params[name])
  }

  /**
    The test in plain words: the parameter list mentions `Request` or has a
    typed parameter. Trimming and the `HttpRequest` alternative change nothing.
   */
  lemma TakesRequestTextMeaning(params: string)
    ensures TakesRequestText(params) <==> Contains(params, "Request") || Contains(params, ":")
  {
    var p := Trim(params);
    TrimKeepsWords(params, "Request");
    TrimKeepsWords(params, ":");
    if Contains(p, "HttpRequest") {
      assert OccursAt("HttpRequest", "Request", 4);
      ContainsTransitive(p, "HttpRequest", "Request");
    }
    if Contains(p, "Request") || Contains(p, ":") {
      var w := if Contains(p, "Request") then "Request" else ":";
      var i: nat :| i <= |p| && OccursAt(p, w, i);
      assert p != [];
    }
  }

  /** A parameter list that is empty or only blank never takes the request. */
  lemma EmptyParamsNoRequest(params: string)
    requires forall k :: 0 <= k < |params| ==> IsSpace(params[k])
    ensures !TakesRequestText(params)
  {
    assert TrimStart(params) == [];
  }

  function Names(hs: seq<Handler>): (r: seq<string>)
    ensures |r| == |hs| && forall k :: 0 <= k < |hs| ==> r[k] == hs[k].name
  {
    if hs == [] then [] else [hs[0].name] + Names(hs[1..])
  }

  lemma NamesSnoc(hs: seq<Handler>, h: Handler)
    ensures Names(hs + [h]) == Names(hs) + [h.name]
  {
  }

  /** The first loop of `extract_handlers`: each handler once, none flagged yet. */
  method CollectHandlers(table: RouteTable) returns (handlers: seq<Handler>)
    ensures Names(handlers) == HandlerNames(table)
    ensures forall k :: 0 <= k < |handlers| ==> !handlers[k].takesRequest
  {
    handlers := [];
    for i := 0 to |table|
      invariant Names(handlers) == HandlerNames(table[..i])
      invariant forall k :: 0 <= k < |handlers| ==> !handlers[k].takesRequest
    {
      assert table[..i + 1][..i] == table[..i];
      var value := table[i].1;
      if value.Str? && value.s !in Names(handlers) {
        NamesSnoc(handlers, Handler(value.s, false));
        handlers := handlers + [Handler(value.s, false)];
      }
    }
    assert table[..|table|] == table;
  }

  /** The second loop of `extract_handlers`: set each flag from the handler's signature. */
  method FlagHandlers(handlers: seq<Handler>, router: RouterFile) returns (flagged: seq<Handler>)
    requires router.RouterSource?
    requires forall k :: 0 <= k < |handlers| ==> !handlers[k].takesRequest
    ensures Names(flagged) == Names(handlers)
    ensures forall k :: 0 <= k < |flagged| ==> flagged[k].takesRequest == TakesRequest(router, flagged[k].name)
  {
    flagged := handlers;
    for i := 0 to |flagged|
      invariant |flagged| == |handlers|
      invariant forall k :: 0 <= k < |flagged| ==> flagged[k].name == handlers[k].name
      invariant forall k :: 0 <= k < i ==> flagged[k].takesRequest == TakesRequest(router, flagged[k].name)
      invariant forall k :: i <= k < |flagged| ==> !flagged[k].takesRequest
    {
      var name := flagged[i].name;
      if name in router.params {
        flagged := flagged[i := Handler(name, TakesRequestText(router.params[name]))];
      }
    }
  }

  /**
    `extract_handlers`: an unreadable Cargo.toml or router.rs is an error.
    Otherwise every handler named in the table, once, in first-seen order,
    flagged by the parameter test on its `router.rs` signature.
   */
  method ExtractHandlers(cargo: CargoToml, router: RouterFile) returns (r: Result<seq<Handler>>)
    ensures r.Err? <==> cargo == CargoUnreadable || router == RouterUnreadable
    ensures r.Ok? ==> Names(r.value) == HandlerNames(TableOf(cargo))
    ensures r.Ok? ==>
      forall k :: 0 <= k < |r.value| ==> r.value[k].takesRequest == TakesRequest(router, r.value[k].name)
  {
    if cargo == CargoUnreadable {
      return Err("cannot read Cargo.toml");
    }
    var handlers := CollectHandlers(TableOf(cargo));
    match router
    case RouterUnreadable =>
      return Err("cannot read router.rs");
    case NoRouter =>
      return Ok(handlers);
    case RouterSource(_) =>
      handlers := FlagHandlers(handlers, router);
      return Ok(handlers);
  }

  /** A non-empty handler list implies `has_routes`, so its glue is generated. */
  lemma HandlersNeedRoutes(cargo: CargoToml)
    requires HandlerNames(TableOf(cargo)) != []
    ensures HasRoutes(cargo)
  {
  }

  /** Likewise for the manifest's route list. */
  lemma RoutesNeedRoutes(cargo: CargoToml)
    requires RoutesOf(TableOf(cargo)) != []
    ensures HasRoutes(cargo)
  {
  }

  // ---------------------------------------------------------------------------
  // get_plugin_struct_name

  predicate IsSeparator(c: char)
  {
    c == '_' || c == '-'
  }

  function FirstSeparator(s: string): (r: Option<nat>)
    ensures r.None? ==> forall k :: 0 <= k < |s| ==> !IsSeparator(s[k])
    ensures r.Some? ==>
      r.value < |s| && IsSeparator(s[r.value]) && forall k :: 0 <= k < r.value ==> !IsSeparator(s[k])
  {
    if s == [] then None
    else if IsSeparator(s[0]) then Some(0)
    else match FirstSeparator(s[1..])
      case None => None
      case Some(i) => Some(i + 1)
  }

  /** `split(|c| c == '_' || c == '-')`. */
  function Words(s: string): (r: seq<string>)
    ensures |r| >= 1
    decreases |s|
  {
    match FirstSeparator(s)
    case None => [s]
    case Some(i) => [s[..i]] + Words(s[i + 1..])
  }

  /** A part with its first character upper-cased; an empty part stays empty. */
  function Capitalize(part: string): string
  {
    if part == [] then [] else [ToUpperChar(part[0])] + part[1..]
  }

  function PascalCase(parts: seq<string>): string
  {
    if parts == [] then [] else Capitalize(parts[0]) + PascalCase(parts[1..])
  }

  lemma {:induction false} PascalCaseSnoc(parts: seq<string>, p: string)
    ensures PascalCase(parts + [p]) == PascalCase(parts) + Capitalize(p)
  {
    if parts != [] {
      assert (parts + [p])[1..] == parts[1..] + [p];
      PascalCaseSnoc(parts[1..], p);
    } else {
      assert PascalCase([p]) == Capitalize(p) + PascalCase([]);
    }
  }

  /**
    The struct name described character by character: separators dropped,
    the first character and every character after a separator upper-cased.
   */
  function Camel(s: string, atStart: bool): (r: string)
    ensures forall k :: 0 <= k < |r| ==> !IsSeparator(r[k])
  {
    if s == [] then []
    else if IsSeparator(s[0]) then Camel(s[1..], true)
    else [if atStart then ToUpperChar(s[0]) else s[0]] + Camel(s[1..], false)
  }

  lemma {:induction false} CamelPlain(x: string)
    requires forall k :: 0 <= k < |x| ==> !IsSeparator(x[k])
    ensures Camel(x, false) == x
  {
    if x != [] {
      CamelPlain(x[1..]);
    }
  }

  lemma CamelWord(x: string, y: string, atStart: bool)
    requires forall k :: 0 <= k < |x| ==> !IsSeparator(x[k])
    ensures Camel(x + y, atStart) == (if atStart then Capitalize(x) else x) + Camel(y, atStart && x == [])
    decreases |x|
  {
    if x != [] {
      var head := if atStart then ToUpperChar(x[0]) else x[0];
      assert !IsSeparator((x + y)[0]);
      assert (x + y)[1..] == x[1..] + y;
      assert forall k :: 0 <= k < |x[1..]| ==> x[1..][k] == x[k + 1];
      CamelWord(x[1..], y, false);
      calc {
        Camel(x + y, atStart);
        [head] + Camel(x[1..] + y, false);
        [head] + (x[1..] + Camel(y, false));
        ([head] + x[1..]) + Camel(y, false);
      }
      assert x == [x[0]] + x[1..];
    } else {
      assert x + y == y;
    }
  }

  /** The loop over the parts agrees with the character-level description. */
  lemma {:induction false} PascalCaseWords(s: string)
    ensures PascalCase(Words(s)) == Camel(s, true)
    decreases |s|
  {
    match FirstSeparator(s)
    case None =>
      assert s + [] == s;
      CamelWord(s, [], true);
      assert PascalCase([s]) == Capitalize(s) + PascalCase([]);
    case Some(i) =>
      var x, y := s[..i], s[i + 1..];
      assert s == x + ([s[i]] + y);
      CamelWord(x, [s[i]] + y, true);
      assert ([s[i]] + y)[1..] == y;
      PascalCaseWords(y);
  }

  /** `get_plugin_struct_name`: the id in PascalCase followed by `Plugin`. */
  method StructName(id: string) returns (name: string)
    ensures name == PascalCase(Words(id)) + "Plugin"
    ensures name == Camel(id, true) + "Plugin"
  {
    var parts := Words(id);
    name := "";
    for i := 0 to |parts|
      invariant name == PascalCase(parts[..i])
    {
      var part := parts[i];
      ghost var before := name;
      if part != [] {
        name := name + [ToUpperChar(part[0])] + part[1..];
      }
      assert name == before + Capitalize(part);
      assert name == PascalCase(parts[..i + 1]) by {
        PascalCaseSnoc(parts[..i], part);
        assert parts[..i + 1] == parts[..i] + [part];
      }
    }
    assert name == PascalCase(parts) by {
      assert parts[..|parts|] == parts;
    }
    PascalCaseWords(id);
    name := name + "Plugin";
  }

  // ---------------------------------------------------------------------------
  // Escaping of the frontend bundle and manifest embedded in lib.rs

  /** `str::replace` of one character by a string. */
  function ReplaceChar(s: string, c: char, rep: string): (r: string)
    ensures c !in rep ==> c !in r
  {
    if s == [] then [] else (if s[0] == c then rep else [s[0]]) + ReplaceChar(s[1..], c, rep)
  }

  lemma {:induction false} ReplaceCharAppend(a: string, b: string, c: char, rep: string)
    ensures ReplaceChar(a + b, c, rep) == ReplaceChar(a, c, rep) + ReplaceChar(b, c, rep)
  {
    if a != [] {
      var head := if a[0] == c then rep else [a[0]];
      assert (a + b)[0] == a[0] && (a + b)[1..] == a[1..] + b;
      ReplaceCharAppend(a[1..], b, c, rep);
      calc {
        ReplaceChar(a + b, c, rep);
        head + ReplaceChar(a[1..] + b, c, rep);
        head + (ReplaceChar(a[1..], c, rep) + ReplaceChar(b, c, rep));
        (head + ReplaceChar(a[1..], c, rep)) + ReplaceChar(b, c, rep);
      }
    } else {
      assert a + b == b;
    }
  }

  /** The chained replaces of `create_lib_rs`. */
  function EscapeLiteral(s: string): (r: string)
    ensures '\n' !in r && '\r' !in r
  {
    var s3 := ReplaceChar(ReplaceChar(ReplaceChar(s, '\\', "\\\\"), '"', "\\\""), '\n', "\\n");
    NoNewlineKept(s3);
    ReplaceChar(s3, '\r', "")
  }

  /** The same escaping, one character at a time. */
  function EscapeChar(c: char): string
  {
    if c == '\\' then "\\\\"
    else if c == '"' then "\\\""
    else if c == '\n' then "\\n"
    else if c == '\r' then ""
    else [c]
  }

  function EscapeEach(s: string): string
  {
    if s == [] then [] else EscapeChar(s[0]) + EscapeEach(s[1..])
  }

  lemma EscapeLiteralAppend(a: string, b: string)
    ensures EscapeLiteral(a + b) == EscapeLiteral(a) + EscapeLiteral(b)
  {
    var s1a, s1b := ReplaceChar(a, '\\', "\\\\"), ReplaceChar(b, '\\', "\\\\");
    ReplaceCharAppend(a, b, '\\', "\\\\");
    var s2a, s2b := ReplaceChar(s1a, '"', "\\\""), ReplaceChar(s1b, '"', "\\\"");
    ReplaceCharAppend(s1a, s1b, '"', "\\\"");
    var s3a, s3b := ReplaceChar(s2a, '\n', "\\n"), ReplaceChar(s2b, '\n', "\\n");
    ReplaceCharAppend(s2a, s2b, '\n', "\\n");
    ReplaceCharAppend(s3a, s3b, '\r', "");
  }

  lemma {:induction false} ReplaceCharAbsent(s: string, c: char, rep: string)
    requires c !in s
    ensures ReplaceChar(s, c, rep) == s
  {
    if s != [] {
      ReplaceCharAbsent(s[1..], c, rep);
      assert s == [s[0]] + s[1..];
    }
  }

  lemma ReplaceCharSingle(c: char, d: char, rep: string)
    ensures ReplaceChar([c], d, rep) == if c == d then rep else [c]
  {
    assert [c][1..] == [];
    assert ReplaceChar([c], d, rep) == (if c == d then rep else [c]) + ReplaceChar([], d, rep);
  }

  lemma EscapeLiteralChar(c: char)
    ensures EscapeLiteral([c]) == EscapeChar(c)
  {
    ReplaceCharSingle(c, '\\', "\\\\");
    var s1 := ReplaceChar([c], '\\', "\\\\");
    if c == '\\' {
      ReplaceCharAbsent(s1, '"', "\\\"");
      ReplaceCharAbsent(s1, '\n', "\\n");
      ReplaceCharAbsent(s1, '\r', "");
    } else {
      ReplaceCharSingle(c, '"', "\\\"");
      var s2 := ReplaceChar(s1, '"', "\\\"");
      if c == '"' {
        ReplaceCharAbsent(s2, '\n', "\\n");
        ReplaceCharAbsent(s2, '\r', "");
      } else {
        ReplaceCharSingle(c, '\n', "\\n");
        var s3 := ReplaceChar(s2, '\n', "\\n");
        ReplaceCharSingle(c, '\r', "");
        if c == '\n' {
          ReplaceCharAbsent(s3, '\r', "");
        }
      }
    }
  }

  /** The chained replaces never act on what an earlier replace produced. */
  lemma {:induction false} EscapeLiteralEach(s: string)
    ensures EscapeLiteral(s) == EscapeEach(s)
  {
    if s != [] {
      assert s == [s[0]] + s[1..];
      EscapeLiteralAppend([s[0]], s[1..]);
      EscapeLiteralChar(s[0]);
      EscapeLiteralEach(s[1..]);
    }
  }

  /** How the Rust compiler reads the escaped text back inside a string literal. */
  function Unescape(t: string): string
  {
    if t == [] then []
    else if t[0] == '\\' && |t| >= 2 then [if t[1] == 'n' then '\n' else t[1]] + Unescape(t[2..])
    else [t[0]] + Unescape(t[1..])
  }

  /** `s` without its carriage returns. */
  function DropCR(s: string): (r: string)
    ensures '\r' !in r
  {
    if s == [] then [] else (if s[0] == '\r' then [] else [s[0]]) + DropCR(s[1..])
  }

  lemma {:induction false} UnescapeEach(s: string)
    ensures Unescape(EscapeEach(s)) == DropCR(s)
  {
    if s != [] {
      var c, rest := s[0], EscapeEach(s[1..]);
      UnescapeEach(s[1..]);
      if c == '\\' || c == '"' || c == '\n' {
        var e := EscapeChar(c);
        assert (e + rest)[2..] == rest;
      } else if c != '\r' {
        assert EscapeChar(c) == [c];
        assert EscapeEach(s) == [c] + rest;
        assert ([c] + rest)[1..] == rest;
        assert Unescape([c] + rest) == [c] + Unescape(rest);
        assert DropCR(s) == [c] + DropCR(s[1..]);
      } else {
        assert EscapeEach(s) == [] + rest == rest;
        assert DropCR(s) == [] + DropCR(s[1..]) == DropCR(s[1..]);
      }
    }
  }

  /** The embedded literal denotes the original text, carriage returns removed. */
  lemma UnescapeEscapeLiteral(s: string)
    ensures Unescape(EscapeLiteral(s)) == DropCR(s)
  {
    EscapeLiteralEach(s);
    UnescapeEach(s);
  }

  /** The escaped text has no raw line break, so it fits on one line of the literal. */
  lemma {:induction false} NoNewlineKept(s: string)
    requires '\n' !in s
    ensures '\n' !in ReplaceChar(s, '\r', "")
  {
    if s != [] {
      NoNewlineKept(s[1..]);
    }
  }

  // ---------------------------------------------------------------------------
  // The handler call inside each generated wrapper

  const RouterPrefix: string := "plugin_mod::router::"
  const WithRequest: string := "(http_request.clone()).await"
  const WithoutRequest: string := "().await"

  /**
    The call inside one generated wrapper. Handler names are Rust
    identifiers and hold no parenthesis, so the name and whether the request
    is passed can be read back from the call.
   */
  function HandlerCall(name: string, takesRequest: bool): (call: string)
    ensures '(' !in name ==> ParseHandlerCall(call) == Some(Handler(name, takesRequest))
  {
    var tail := if takesRequest then WithRequest else WithoutRequest;
    var rest := name + tail;
    var call := RouterPrefix + rest;
    assert '(' !in name ==> ParseHandlerCall(call) == Some(Handler(name, takesRequest)) by {
      if '(' !in name {
        assert StartsWith(call, RouterPrefix) && call[|RouterPrefix|..] == rest;
        assert tail[0] == '(';
        FirstIndexAfterPrefix(name, tail, '(');
        assert rest[..|name|] == name && rest[|name|..] == tail;
      }
    }
    assert RouterPrefix + name + tail == call;
    call
  }

  /**
    Reading a call back: the handler name is the text between the module
    path and the first parenthesis, and the request is passed exactly when
    the argument list is not empty.
   */
  function ParseHandlerCall(call: string): Option<Handler>
  {
    if !StartsWith(call, RouterPrefix) then None
    else
      var rest := call[|RouterPrefix|..];
      match FirstIndex(rest, '(')
      case None => None
      case Some(i) =>
        var tail := rest[i..];
        if tail == WithRequest then Some(Handler(rest[..i], true))
        else if tail == WithoutRequest then Some(Handler(rest[..i], false))
        else None
  }

  /**
    The wrappers of `create_lib_rs`: none without routes; otherwise one call
    per extracted handler, with the request exactly for the handlers that take it.
   */
  method HandlerCalls(hasRoutes: bool, cargo: CargoToml, router: RouterFile) returns (r: Result<seq<string>>)
    ensures !hasRoutes ==> r == Ok([])
    ensures hasRoutes ==> (r.Err? <==> cargo == CargoUnreadable || router == RouterUnreadable)
    ensures hasRoutes && r.Ok? ==> |r.value| == |HandlerNames(TableOf(cargo))|
    ensures hasRoutes && r.Ok? ==>
      forall k :: 0 <= k < |r.value| ==>
        var name := HandlerNames(TableOf(cargo))[k];
        r.value[k] == HandlerCall(name, TakesRequest(router, name))
  {
    if !hasRoutes {
      return Ok([]);
    }
    var handlers := ExtractHandlers(cargo, router);
    if handlers.Err? {
      return Err(handlers.error);
    }
    var hs := handlers.value;
    var calls: seq<string> := [];
    for i := 0 to |hs|
      invariant |calls| == i
      invariant forall k :: 0 <= k < i ==> calls[k] == HandlerCall(hs[k].name, hs[k].takesRequest)
    {
      calls := calls + [HandlerCall(hs[i].name, hs[i].takesRequest)];
    }
    assert forall k :: 0 <= k < |hs| ==> Names(hs)[k] == hs[k].name;
    return Ok(calls);
  }
}

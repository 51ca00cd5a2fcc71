/**
`Dispatcher`: its tables, built once for every session, and the handler a request path selects.
*/
module Dispatching {
  import opened Text
  import opened ConfigTree
  import opened ConfigAttributes
  import opened ConfigHandlers
  import opened ConfigObjects
  import opened HandlerPlaces
  import opened Requests
  import opened Responses

  datatype HandlerKind = Echo | Static | Error | Status | Proxy | Meme | Health | Bad

  /** A handler as it is created: its class, the block it reads its settings from, and the root. */
  datatype Handler = Handler(kind: HandlerKind, config: NginxConfig, root: string)

  /** `createByName`: the class a name stands for; None is the null pointer. */
  function KindOf(name: string): Option<HandlerKind> {
    if name == "echo" then Some(Echo)
    else if name == "static" then Some(Static)
    else if name == "error" then Some(Error)
    else if name == "status" then Some(Status)
    else if name == "proxy" then Some(Proxy)
    else if name == "meme" then Some(Meme)
    else if name == "health" then Some(Health)
    else if name == "bad" then Some(Bad)
    else None
  }

  class Dispatcher {
    const root: string
    const tables: HandlerTables
    var request: Request
    var response: Response

    /** Reads the root and builds the tables from the configuration, whose handlers it enters into the shared url
        map. */
    constructor (config: NginxConfig, urls: UrlHandlers, ghost ss: seq<Statement>, ghost repr: set<object>)
      requires Represents(config.statements, ss, repr) && HandlersDefined(ss) && urls !in repr
      requires config.statements != []
      modifies urls
      ensures fresh(tables)
      ensures root == RootOf(PrintStatement(ss[0], 0))
      ensures tables.handlerTable == FillNames(map[], Entries(ss))
      ensures HoldsBodies(tables.configTable, FillBodies(map[], Entries(ss)), repr)
      ensures urls.urlMap == FillNames(old(urls.urlMap), Entries(ss))
      ensures fresh(request) && fresh(response) && request.req == ""
    {
      request := new Request("");
      response := new Response();
      var found := config.GetRoot(ss, repr);
      root := found;
      tables := new HandlerTables();
      new;
      config.ParseString(0, tables, urls, ss, map[], repr);
    }

    /** The part of `generateResponse` that chooses what a handler is created with: the table key is the path up to
        its second slash. An unknown key selects the error handler with an empty configuration. */
    method Select(path: string) returns (name: string, config: NginxConfig, handlerRoot: string)
      requires tables.handlerTable.Keys == tables.configTable.Keys
      ensures var key := FirstSegment(path);
              if key in tables.handlerTable
              then name == tables.handlerTable[key] && config == tables.configTable[key]
              else name == "error" && fresh(config) && config.statements == []
      ensures handlerRoot == root
    {
      var i := 1;
      while i < |path|
        invariant 1 <= i && (path != "" ==> i <= |path|) && (path == "" ==> i == 1)
        invariant forall k :: 1 <= k < i && k < |path| ==> path[k] != '/'
      {
        if path[i] == '/' {
          break;
        }
        i := i + 1;
      }
      var uri := Substr(path, 0, i);
      SegmentBound(path, i);
      if uri in tables.handlerTable {
        return tables.handlerTable[uri], tables.configTable[uri], root;
      }
      config := new NginxConfig();
      return "error", config, root;
    }

    /** `generateResponse`: the handler for the request is created, and the dispatcher keeps the request and the
        response, which is `answer`, what that handler makes of the request. */
    method GenerateResponse(req: Request, answer: Response) returns (handler: Handler, resp: Response)
      requires tables.handlerTable.Keys == tables.configTable.Keys
      requires var key := FirstSegment(req.uriPath);
               key in tables.handlerTable ==> KindOf(tables.handlerTable[key]).Some?
      modifies this
      ensures var key := FirstSegment(req.uriPath);
              if key in tables.handlerTable
              then
                && handler.config == tables.configTable[key]
                && var name := tables.handlerTable[key];
                   && (name == "echo" <==> handler.kind == Echo)
                   && (name == "static" <==> handler.kind == Static)
                   && (name == "error" <==> handler.kind == Error)
                   && (name == "status" <==> handler.kind == Status)
                   && (name == "proxy" <==> handler.kind == Proxy)
                   && (name == "meme" <==> handler.kind == Meme)
                   && (name == "health" <==> handler.kind == Health)
                   && (name == "bad" <==> handler.kind == Bad)
              else handler.kind == Error && fresh(handler.config) && handler.config.statements == []
      ensures handler.root == root
      ensures resp == answer && request == req && response == answer
    {
      var name, config, path := Select(req.uriPath);
      handler := Handler(KindOf(name).value, config, path);
      resp := answer;
      request, response := req, resp;
    }
  }

  /** A name has a class exactly when it is one of the eight. */
  lemma NamedClasses(name: string)
    ensures KindOf(name).Some? <==>
            name in ["echo", "static", "error", "status", "proxy", "meme", "health", "bad"]
    ensures KindOf("echo") == Some(Echo) && KindOf("static") == Some(Static) && KindOf("error") == Some(Error)
    ensures KindOf("status") == Some(Status) && KindOf("proxy") == Some(Proxy) && KindOf("meme") == Some(Meme)
    ensures KindOf("health") == Some(Health) && KindOf("bad") == Some(Bad)
  {
  }

  /** Where the scan stops is where the first segment ends. */
  lemma SegmentBound(path: string, i: nat)
    requires 1 <= i && (path != "" ==> i <= |path|)
    requires forall k :: 1 <= k < i && k < |path| ==> path[k] != '/'
    requires i < |path| ==> path[i] == '/'
    ensures Substr(path, 0, i) == FirstSegment(path)
  {
    if path != "" {
      var h, rest := path[1..i], path[i..];
      assert path[1..] == h + rest;
      assert Free(h, {'/'});
      HeadOf(h, rest, {'/'});
    }
  }

  /** Building a dispatcher and asking it for `u/rest`: the name comes from the first handler statement for `u`,
      the configuration object represents that statement's block, and the handler finds `u` in it again. */
  method DispatchFor(config: NginxConfig, urls: UrlHandlers, u: string, rest: string, ghost i: nat,
                     ghost ss: seq<Statement>, ghost repr: set<object>)
    returns (name: string, block: NginxConfig, uri: string, root: string)
    requires Represents(config.statements, ss, repr) && HandlersDefined(ss) && urls !in repr
    requires Routable(u) && '\0' !in u && FirstFor(Entries(ss), u, i)
    modifies urls
    ensures name == Entries(ss)[i].name
    ensures Represents(block.statements, Entries(ss)[i].body, repr)
    ensures uri == u
    ensures root == RootOf(PrintStatement(ss[0], 0))
  {
    DispatchEndToEnd(ss, u, rest, i);
    TablesAgree(ss, u);
    var dispatcher := new Dispatcher(config, urls, ss, repr);
    name, block, root := dispatcher.Select(u + "/" + rest);
    uri := block.GetAttribute("url", Entries(ss)[i].body, repr);
  }

  /** A dispatcher for a configuration with a block `handler name` for a routable `u`, the first closed with that url:
      its tables hold name and block. */
  method DispatcherFor(config: NginxConfig, urls: UrlHandlers, u: string, ghost place: Place, ghost name: string,
                       ghost more: seq<string>, ghost body: seq<Statement>, ghost ss: seq<Statement>,
                       ghost repr: set<object>)
    returns (dispatcher: Dispatcher)
    requires Represents(config.statements, ss, repr) && HandlersDefined(ss) && urls !in repr
    requires ss == Filled(place, Block(["handler", name] + more, body))
    requires PeekDefined(Print(body, 0)) && PeekedURL(Print(body, 0)) == u
    requires NoHandlerFor(Earlier(place), u) && NoHandlerFor(body, u)
    modifies urls
    ensures fresh(dispatcher) && fresh(dispatcher.tables)
    ensures dispatcher.tables.handlerTable.Keys == dispatcher.tables.configTable.Keys
    ensures u in dispatcher.tables.handlerTable && dispatcher.tables.handlerTable[u] == name
    ensures dispatcher.tables.configTable[u] in repr
    ensures Represents(dispatcher.tables.configTable[u].statements, body, repr)
  {
    FirstClosedWins(map[], map[], place, name, more, body);
    FillByFirst(map[], map[], Entries(ss), u);
    dispatcher := new Dispatcher(config, urls, ss, repr);
    hide *;
    BodyOfKey(dispatcher.tables.configTable, FillBodies(map[], Entries(ss)), u, repr);
  }

  /** From the words of the configuration to the class of the handler: a request for `u/rest` is answered, for a
      routable `u`, by the handler that the first block closed with that url names. */
  method AnswerFor(config: NginxConfig, urls: UrlHandlers, u: string, req: Request, answer: Response,
                   ghost rest: string, ghost place: Place, ghost name: string, ghost more: seq<string>,
                   ghost body: seq<Statement>, ghost ss: seq<Statement>, ghost repr: set<object>)
    returns (handler: Handler)
    requires Represents(config.statements, ss, repr) && HandlersDefined(ss) && urls !in repr
    requires ss == Filled(place, Block(["handler", name] + more, body))
    requires PeekDefined(Print(body, 0)) && PeekedURL(Print(body, 0)) == u
    requires NoHandlerFor(Earlier(place), u) && NoHandlerFor(body, u)
    requires KindOf(name).Some?
    requires Routable(u) && req.uriPath == u + "/" + rest
    modifies urls
    ensures name == "echo" <==> handler.kind == Echo
    ensures name == "static" <==> handler.kind == Static
    ensures name == "error" <==> handler.kind == Error
    ensures name == "status" <==> handler.kind == Status
    ensures name == "proxy" <==> handler.kind == Proxy
    ensures name == "meme" <==> handler.kind == Meme
    ensures name == "health" <==> handler.kind == Health
    ensures name == "bad" <==> handler.kind == Bad
    ensures Represents(handler.config.statements, body, repr)
  {
    RoutingLaw(u, rest);
    var dispatcher := DispatcherFor(config, urls, u, place, name, more, body, ss, repr);
    hide *;
    var resp;
    handler, resp := dispatcher.GenerateResponse(req, answer);
  }

  lemma BodyOfKey(table: map<string, NginxConfig>, bodies: map<string, seq<Statement>>, u: string,
                  repr: set<object>)
    requires HoldsBodies(table, bodies, repr)
    ensures table.Keys == bodies.Keys
    ensures u in bodies ==> Represents(table[u].statements, bodies[u], repr)
  {
  }
}

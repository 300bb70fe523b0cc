/** The decisions `StakeAPI` in `stakeapi/client.py` takes around its HTTP
    calls. The network is the parameter `send`: a function from the request
    the client issues to what came back, either a status with the decoded
    JSON body or an `aiohttp.ClientError`. */
module Client {
  import opened Wrappers
  import opened Text
  import opened Json
  import opened Errors

  /** What `_request` hands to the HTTP session: HTTP method, endpoint, query
      parameters (None when the caller passes none) and JSON body. */
  datatype Request = Request(verb: string, endpoint: string, params: Option<map<string, Json>>, body: Option<Json>)

  /** What comes back: a status and the body `response.json()` decoded (an
      empty body decodes to `null`), or an `aiohttp.ClientError` (a
      connection failure, a body whose content type is not JSON). */
  datatype Reply = Reply(status: int, body: Json) | ClientFailure(reason: string)

  const GraphqlEndpoint: string := "/_api/graphql"
  const ApiBase: string := "/api/v1"
  const CasinoGamesEndpoint: string := ApiBase + "/casino/games"
  const SportsEventsEndpoint: string := ApiBase + "/sports/events"
  const BetHistoryEndpoint: string := ApiBase + "/bets/history"

  const UnauthorizedMessage: string := "Invalid access token or unauthorized access"
  const RateLimitMessage: string := "Rate limit exceeded"
  const RequestFailedPrefix: string := "Request failed: "

  /** 401 Unauthorized (section 15.5.2 of RFC 9110). */
  const StatusUnauthorized: int := 401
  /** 429 Too Many Requests (section 4 of RFC 6585). */
  const StatusTooManyRequests: int := 429
  /** The first status the client treats as an error. */
  const FirstErrorStatus: int := 400

  // ---------------------------------------------------------------------
  // _request
  // ---------------------------------------------------------------------

  /** The status check of `_request`, in its fixed order: 401, then 429,
      then any other status from 400 up; a lower status passes the decoded
      body through. A client error becomes a `StakeAPIError` naming it. */
  function CheckStatus(reply: Reply): (r: Result<Json, ClientError>)
    ensures r.Success? <==> reply.Reply? && reply.status < FirstErrorStatus
    ensures r.Success? ==> r.value == reply.body
    ensures r == Failure(AuthenticationError(UnauthorizedMessage))
      <==> reply.Reply? && reply.status == StatusUnauthorized
    ensures r == Failure(RateLimitError(RateLimitMessage))
      <==> reply.Reply? && reply.status == StatusTooManyRequests
    ensures r.Failure? && r.error.ApiStatusError?
      <==> reply.Reply? && reply.status >= FirstErrorStatus
           && reply.status != StatusUnauthorized && reply.status != StatusTooManyRequests
    ensures r.Failure? && r.error.ApiStatusError? ==> r.error == ApiStatusError(reply.status, reply.body)
    ensures reply.ClientFailure? ==> r == Failure(StakeApiError(RequestFailedPrefix + reply.reason))
    ensures r.Failure? ==> IsStakeApiError(r.error)
  {
    match reply
    case ClientFailure(reason) => Failure(StakeApiError(RequestFailedPrefix + reason))
    case Reply(status, body) =>
      if status == StatusUnauthorized then Failure(AuthenticationError(UnauthorizedMessage))
      else if status == StatusTooManyRequests then Failure(RateLimitError(RateLimitMessage))
      else if status >= FirstErrorStatus then Failure(ApiStatusError(status, body))
      else Success(body)
  }

  /** `_request`: issue the request, then check the status. The decoded
      body comes back exactly when the reply has a status below 400. */
  function Call(send: Request -> Reply, request: Request): (r: Result<Json, ClientError>)
    ensures r.Success? <==> send(request).Reply? && send(request).status < FirstErrorStatus
    ensures r.Success? ==> r.value == send(request).body
    ensures r.Failure? ==> IsStakeApiError(r.error)
  {
    CheckStatus(send(request))
  }

  // ---------------------------------------------------------------------
  // _graphql_request
  // ---------------------------------------------------------------------

  /** The request body of `_graphql_request`: always the query, the
      variables only when they are a non-empty dict and the operation name
      only when it is a non-empty string. */
  function GraphqlPayload(query: string, variables: Option<map<string, Json>>, operationName: Option<string>): (payload: map<string, Json>)
    ensures payload.Keys <= {"query", "variables", "operationName"}
    ensures "query" in payload && payload["query"] == JString(query)
    ensures "variables" in payload <==> variables.Some? && variables.value != map[]
    ensures "variables" in payload ==> payload["variables"] == JObject(variables.value)
    ensures "operationName" in payload <==> operationName.Some? && operationName.value != ""
    ensures "operationName" in payload ==> payload["operationName"] == JString(operationName.value)
  {
    var withQuery := map["query" := JString(query)];
    var withVariables :=
      if variables.Some? && variables.value != map[] then withQuery["variables" := JObject(variables.value)]
      else withQuery;
    if operationName.Some? && operationName.value != "" then withVariables["operationName" := JString(operationName.value)]
    else withVariables
  }

  /** A GraphQL request as a server reads it from a JSON body: the query
      string, the variables (none given means none) and the optional
      operation name. */
  datatype GraphqlOperation = GraphqlOperation(query: string, variables: map<string, Json>, operationName: Option<string>)

  function ReadGraphqlBody(body: Json): Option<GraphqlOperation> {
    if !body.JObject? || "query" !in body.fields || !body.fields["query"].JString? then None
    else
      var fields := body.fields;
      var variables :=
        if "variables" !in fields then Some(map[])
        else if fields["variables"].JObject? then Some(fields["variables"].fields)
        else None;
      var operationName :=
        if "operationName" !in fields then Some(None)
        else if fields["operationName"].JString? then Some(Some(fields["operationName"].s))
        else None;
      if variables.None? || operationName.None? then None
      else Some(GraphqlOperation(fields["query"].s, variables.value, operationName.value))
  }

  /** Leaving out empty variables and an empty operation name loses nothing:
      the body reads back as the query, the variables given (or none) and
      the operation name when it is not empty. */
  lemma GraphqlPayloadReadsBack(query: string, variables: Option<map<string, Json>>, operationName: Option<string>)
    ensures ReadGraphqlBody(JObject(GraphqlPayload(query, variables, operationName)))
      == Some(GraphqlOperation(
           query,
           if variables.Some? then variables.value else map[],
           if operationName.Some? && operationName.value != "" then operationName else None))
  {
  }

  /** `error.get("message", "Unknown error")` for each entry of the errors
      list, stopping at the first entry that is not a dict. */
  function ErrorMessages(errors: seq<Json>): (r: Result<seq<Json>, Fault>)
    ensures r.Success? <==> forall i | 0 <= i < |errors| :: errors[i].JObject?
    ensures r.Failure? ==> r.error == AttributeError
    ensures r.Success? ==> |r.value| == |errors|
    ensures r.Success? ==> forall i | 0 <= i < |errors| ::
      r.value[i] == if "message" in errors[i].fields then errors[i].fields["message"] else JString(UnknownError)
  {
    if errors == [] then Success([])
    else
      var first :- Get(errors[0], "message", JString(UnknownError));
      var rest :- ErrorMessages(errors[1..]);
      Success([first] + rest)
  }

  const UnknownError: string := "Unknown error"
  const GraphqlErrorsPrefix: string := "GraphQL errors: "

  /** `sep.join(parts)`: every part must be a str, otherwise TypeError. */
  function JoinStrings(parts: seq<Json>, sep: string): (r: Result<string, Fault>)
    ensures r.Success? <==> forall i | 0 <= i < |parts| :: parts[i].JString?
    ensures r.Failure? ==> r.error == TypeError
  {
    if forall i | 0 <= i < |parts| :: parts[i].JString? then
      Success(Join(seq(|parts|, i requires 0 <= i < |parts| => parts[i].s), sep))
    else Failure(TypeError)
  }

  /** The message of the `StakeAPIError` raised for a response with an
      `errors` entry. For a list it is built exactly when every entry is a
      dict whose message, if any, is a str; the loop and the join raise
      AttributeError or TypeError otherwise. */
  function GraphqlErrorsMessage(errors: Json): (r: Result<string, Fault>)
    ensures errors.JArray? ==> (r.Success? <==> forall i | 0 <= i < |errors.items| :: WellFormedError(errors.items[i]))
    ensures r.Success? ==> |GraphqlErrorsPrefix| <= |r.value| && r.value[..|GraphqlErrorsPrefix|] == GraphqlErrorsPrefix
    ensures r.Failure? ==> r.error == AttributeError || r.error == TypeError
  {
    var entries :- LoopElements(errors, AttributeError);
    var messages :- ErrorMessages(entries);
    var text :- JoinStrings(messages, ", ");
    Success(GraphqlErrorsPrefix + text)
  }

  /** The error check of `_graphql_request`: any `errors` entry fails the
      call, otherwise the result is `data`, or an empty dict without one. */
  function HandleGraphqlResponse(response: Json): (r: Result<Json, ClientError>)
    ensures r.Success? ==> response.JObject? && "errors" !in response.fields
    ensures response.JObject? && "errors" !in response.fields ==>
      r == Success(if "data" in response.fields then response.fields["data"] else EmptyObject)
    ensures response.JObject? && "errors" in response.fields ==>
      r.Failure? && (r.error.StakeApiError? || r.error.PythonFault?)
    ensures !response.JObject? ==> r.Failure? && r.error.PythonFault?
  {
    var hasErrors :- Lift(Contains(response, "errors"));
    if hasErrors then
      var errors :- Lift(GetItem(response, "errors"));
      var message :- Lift(GraphqlErrorsMessage(errors));
      Failure(StakeApiError(message))
    else
      Lift(Get(response, "data", EmptyObject))
  }

  /** What an error entry contributes to the message: its `message` when
      that is present, `Unknown error` otherwise. */
  predicate WellFormedError(error: Json) {
    error.JObject? && ("message" in error.fields ==> error.fields["message"].JString?)
  }

  function MessageOf(error: Json): string
    requires WellFormedError(error)
  {
    if "message" in error.fields then error.fields["message"].s else UnknownError
  }

  /** For a list of well-formed error entries the call fails with a
      `StakeAPIError` listing every message in order, separated by `, `. An
      empty list still fails, with nothing after the prefix. */
  lemma GraphqlErrorsAreReported(fields: map<string, Json>, errors: seq<Json>)
    requires "errors" in fields && fields["errors"] == JArray(errors)
    requires forall i | 0 <= i < |errors| :: WellFormedError(errors[i])
    ensures HandleGraphqlResponse(JObject(fields))
      == Failure(StakeApiError(GraphqlErrorsPrefix + Join(seq(|errors|, i requires 0 <= i < |errors| => MessageOf(errors[i])), ", ")))
    ensures errors == [] ==> HandleGraphqlResponse(JObject(fields)) == Failure(StakeApiError(GraphqlErrorsPrefix))
  {
    var messages := ErrorMessages(errors).value;
    assert seq(|messages|, i requires 0 <= i < |messages| => messages[i].s)
        == seq(|errors|, i requires 0 <= i < |errors| => MessageOf(errors[i]));
    if errors == [] {
      assert GraphqlErrorsPrefix + Join([], ", ") == GraphqlErrorsPrefix;
    }
  }

  /** The HTTP request `_graphql_request` issues. */
  function GraphqlHttpRequest(query: string, variables: Option<map<string, Json>>, operationName: Option<string>): (request: Request)
    ensures request.verb == "POST" && request.endpoint == GraphqlEndpoint && request.params.None?
    ensures request.body == Some(JObject(GraphqlPayload(query, variables, operationName)))
  {
    Request("POST", GraphqlEndpoint, None, Some(JObject(GraphqlPayload(query, variables, operationName))))
  }

  /** `_graphql_request`. */
  function GraphqlRequest(send: Request -> Reply, query: string, variables: Option<map<string, Json>>, operationName: Option<string>): (r: Result<Json, ClientError>)
    ensures CheckStatus(send(GraphqlHttpRequest(query, variables, operationName))).Failure? ==>
      r == CheckStatus(send(GraphqlHttpRequest(query, variables, operationName)))
    ensures r.Success? ==>
      var reply := send(GraphqlHttpRequest(query, variables, operationName));
      && reply.Reply? && reply.status < FirstErrorStatus
      && reply.body.JObject? && "errors" !in reply.body.fields
      && r.value == if "data" in reply.body.fields then reply.body.fields["data"] else EmptyObject
    ensures
      var reply := send(GraphqlHttpRequest(query, variables, operationName));
      reply.Reply? && reply.status < FirstErrorStatus && reply.body.JObject? && "errors" !in reply.body.fields
      ==> r == Success(if "data" in reply.body.fields then reply.body.fields["data"] else EmptyObject)
    ensures
      var reply := send(GraphqlHttpRequest(query, variables, operationName));
      reply.Reply? && reply.status < FirstErrorStatus && reply.body.JObject? && "errors" in reply.body.fields
      ==> r.Failure? && (r.error.StakeApiError? || r.error.PythonFault?)
  {
    var response :- Call(send, GraphqlHttpRequest(query, variables, operationName));
    HandleGraphqlResponse(response)
  }

  // ---------------------------------------------------------------------
  // get_user_balance
  // ---------------------------------------------------------------------

  const UserBalancesOperation: string := "UserBalances"

  /** The query text `get_user_balance` sends, with its indentation. */
  const UserBalancesQuery: string :=
    "\n        query UserBalances {\n          user {\n            id\n            balances {\n"
    + "              available {\n                amount\n                currency\n                __typename\n              }\n"
    + "              vault {\n                amount\n                currency\n                __typename\n              }\n"
    + "              __typename\n            }\n            __typename\n          }\n        }\n        "

  /** The result of `get_user_balance`: the `available` and the `vault`
      table, each from a lower-cased currency code to its amount. */
  datatype Balances = Balances(available: map<string, Json>, vault: map<string, Json>)

  const NoBalances: Balances := Balances(map[], map[])

  /** The result as the dict Python returns: always exactly the keys
      `available` and `vault`. */
  function BalancesJson(b: Balances): (j: Json)
    ensures j.JObject? && j.fields.Keys == {"available", "vault"}
    ensures j.fields["available"] == JObject(b.available) && j.fields["vault"] == JObject(b.vault)
  {
    JObject(map["available" := JObject(b.available), "vault" := JObject(b.vault)])
  }

  /** One balance entry: its currency lower-cased (an empty one when
      missing) and its amount (0 when missing). An entry that is not a dict,
      or whose currency is not a str, raises AttributeError. */
  function BalanceEntry(entry: Json): (r: Result<(string, Json), Fault>)
    ensures r.Success? <==> entry.JObject? && ("currency" in entry.fields ==> entry.fields["currency"].JString?)
    ensures r.Failure? ==> r.error == AttributeError
    ensures r.Success? ==>
      && r.value.0 == Lower(if "currency" in entry.fields then entry.fields["currency"].s else "")
      && r.value.1 == if "amount" in entry.fields then entry.fields["amount"] else JNumber(0.0)
  {
    var currency :- Get(entry, "currency", JString(""));
    var key :- LowerString(currency);
    Success((key, Get(entry, "amount", JNumber(0.0)).value))
  }

  predicate ValidEntries(entries: seq<Json>) {
    forall i | 0 <= i < |entries| :: BalanceEntry(entries[i]).Success?
  }

  function EntryKey(entry: Json): string
    requires BalanceEntry(entry).Success?
  {
    BalanceEntry(entry).value.0
  }

  function EntryAmount(entry: Json): Json
    requires BalanceEntry(entry).Success?
  {
    BalanceEntry(entry).value.1
  }

  /** The loop over one balance list: each entry stores its amount under
      its key, replacing what an earlier entry stored there. */
  function AggregateBalances(entries: seq<Json>): (r: Result<map<string, Json>, Fault>)
    ensures r.Failure? ==> r.error == AttributeError
    decreases |entries|
  {
    if entries == [] then Success(map[])
    else
      var table :- AggregateBalances(entries[..|entries| - 1]);
      var entry :- BalanceEntry(entries[|entries| - 1]);
      Success(table[entry.0 := entry.1])
  }

  /** The loop fails exactly when some entry is malformed. */
  lemma {:induction false} AggregateSucceedsIff(entries: seq<Json>)
    ensures AggregateBalances(entries).Success? <==> ValidEntries(entries)
    decreases |entries|
  {
    if entries != [] {
      var init := entries[..|entries| - 1];
      AggregateSucceedsIff(init);
      assert forall i | 0 <= i < |init| :: init[i] == entries[i];
    }
  }

  /** The table's keys are exactly the entries' lower-cased currencies. */
  lemma {:induction false} AggregateKeys(entries: seq<Json>, key: string)
    requires ValidEntries(entries)
    ensures AggregateBalances(entries).Success?
    ensures key in AggregateBalances(entries).value
      <==> exists i | 0 <= i < |entries| :: EntryKey(entries[i]) == key
    decreases |entries|
  {
    AggregateSucceedsIff(entries);
    if entries != [] {
      var init := entries[..|entries| - 1];
      assert forall i | 0 <= i < |init| :: init[i] == entries[i];
      AggregateKeys(init, key);
    }
  }

  /** The last entry with a given key decides the amount stored there. */
  lemma {:induction false} AggregateLastWins(entries: seq<Json>, i: nat)
    requires ValidEntries(entries)
    requires i < |entries|
    requires forall j | i < j < |entries| :: EntryKey(entries[j]) != EntryKey(entries[i])
    ensures AggregateBalances(entries).Success?
    ensures EntryKey(entries[i]) in AggregateBalances(entries).value
    ensures AggregateBalances(entries).value[EntryKey(entries[i])] == EntryAmount(entries[i])
    decreases |entries|
  {
    AggregateSucceedsIff(entries);
    if i < |entries| - 1 {
      var init := entries[..|entries| - 1];
      assert forall k | 0 <= k < |init| :: init[k] == entries[k];
      AggregateLastWins(init, i);
    }
  }

  /** One table of `get_user_balance`: the entries under `name` when the
      balances hold that name, an empty table otherwise. */
  function BalanceTable(balances: Json, name: string): (r: Result<map<string, Json>, Fault>)
    ensures balances.JObject? && name !in balances.fields ==> r == Success(map[])
  {
    var present :- Contains(balances, name);
    if !present then Success(map[])
    else
      var list :- GetItem(balances, name);
      var entries :- LoopElements(list, AttributeError);
      AggregateBalances(entries)
  }

  /** The transform of `get_user_balance`: both tables stay empty unless
      `data` has a truthy `user` holding `balances`. */
  function TransformBalances(data: Json): (r: Result<Balances, Fault>)
    ensures data.JObject? && ("user" !in data.fields || !Truthy(data.fields["user"])) ==> r == Success(NoBalances)
    ensures data.JObject? && "user" in data.fields && data.fields["user"].JObject?
      && "balances" !in data.fields["user"].fields
      ==> r == Success(NoBalances)
  {
    var hasUser :- Contains(data, "user");
    if !hasUser then Success(NoBalances)
    else
      var user :- GetItem(data, "user");
      if !Truthy(user) then Success(NoBalances)
      else
        var hasBalances :- Contains(user, "balances");
        if !hasBalances then Success(NoBalances)
        else
          var balances :- GetItem(user, "balances");
          var available :- BalanceTable(balances, "available");
          var vault :- BalanceTable(balances, "vault");
          Success(Balances(available, vault))
  }

  /** A balance list the loop gets through: absent, or a list of
      well-formed entries. */
  predicate TableListOk(balances: map<string, Json>, name: string) {
    name in balances ==> balances[name].JArray? && ValidEntries(balances[name].items)
  }

  function TableOf(balances: map<string, Json>, name: string): map<string, Json>
    requires TableListOk(balances, name)
  {
    if name in balances then
      AggregateSucceedsIff(balances[name].items);
      AggregateBalances(balances[name].items).value
    else map[]
  }

  /** With a `user.balances` dict whose lists are well formed, each table is
      built from its own list alone. */
  lemma BalanceTablesAreIndependent(data: map<string, Json>, user: map<string, Json>, balances: map<string, Json>)
    requires "user" in data && data["user"] == JObject(user)
    requires "balances" in user && user["balances"] == JObject(balances)
    requires TableListOk(balances, "available") && TableListOk(balances, "vault")
    ensures TransformBalances(JObject(data)) == Success(Balances(TableOf(balances, "available"), TableOf(balances, "vault")))
  {
    if "available" in balances {
      AggregateSucceedsIff(balances["available"].items);
    }
    if "vault" in balances {
      AggregateSucceedsIff(balances["vault"].items);
    }
  }

  /** `get_user_balance`: the `UserBalances` query without variables, then
      the transform; a built-in exception of the transform escapes as it
      is. */
  function GetUserBalance(send: Request -> Reply): (r: Result<Balances, ClientError>)
    ensures r.Success? ==> GraphqlRequest(send, UserBalancesQuery, None, Some(UserBalancesOperation)).Success?
    ensures CheckStatus(send(UserBalanceHttpRequest())).Failure? ==>
      r == Failure(CheckStatus(send(UserBalanceHttpRequest())).error)
  {
    var data :- GraphqlRequest(send, UserBalancesQuery, None, Some(UserBalancesOperation));
    Lift(TransformBalances(data))
  }

  /** The request `get_user_balance` issues. */
  function UserBalanceHttpRequest(): Request {
    GraphqlHttpRequest(UserBalancesQuery, None, Some(UserBalancesOperation))
  }

  /** The body `get_user_balance` posts holds the query and the operation
      name and nothing else. */
  lemma UserBalanceRequestBody()
    ensures UserBalanceHttpRequest().body
      == Some(JObject(map["query" := JString(UserBalancesQuery), "operationName" := JString(UserBalancesOperation)]))
  {
  }

  /** A successful GraphQL answer whose `data` has no truthy `user` gives two
      empty tables. */
  lemma UserBalanceWithoutUser(send: Request -> Reply, status: int, response: map<string, Json>, data: map<string, Json>)
    requires send(UserBalanceHttpRequest()) == Reply(status, JObject(response))
    requires status < FirstErrorStatus
    requires "errors" !in response && "data" in response && response["data"] == JObject(data)
    requires "user" !in data || !Truthy(data["user"])
    ensures GetUserBalance(send) == Success(NoBalances)
  {
  }

  /** End to end: a successful GraphQL answer whose `data.user.balances`
      holds well-formed lists gives the two tables built from those lists. */
  lemma UserBalanceFromReply(send: Request -> Reply, status: int, response: map<string, Json>,
                             data: map<string, Json>, user: map<string, Json>, balances: map<string, Json>)
    requires send(UserBalanceHttpRequest()) == Reply(status, JObject(response))
    requires status < FirstErrorStatus
    requires "errors" !in response && "data" in response && response["data"] == JObject(data)
    requires "user" in data && data["user"] == JObject(user)
    requires "balances" in user && user["balances"] == JObject(balances)
    requires TableListOk(balances, "available") && TableListOk(balances, "vault")
    ensures GetUserBalance(send)
      == Success(Balances(TableOf(balances, "available"), TableOf(balances, "vault")))
  {
    BalanceTablesAreIndependent(data, user, balances);
  }

  // ---------------------------------------------------------------------
  // get_casino_games, get_sports_events, get_bet_history
  // ---------------------------------------------------------------------

  /** `Model.from_dict(element)`: `cls(**element)` needs a dict (TypeError
      otherwise); the pydantic model construction is the parameter
      `decode`. */
  function FromDict<T>(element: Json, decode: map<string, Json> -> Result<T, Fault>): Result<T, Fault> {
    if element.JObject? then decode(element.fields) else Failure(TypeError)
  }

  /** The list comprehension over the elements: one record per element, in
      order, or the failure of the first element that does not decode. */
  function DecodeRecords<T>(elements: seq<Json>, decode: map<string, Json> -> Result<T, Fault>): (r: Result<seq<T>, Fault>)
    ensures r.Success? <==> forall i | 0 <= i < |elements| :: FromDict(elements[i], decode).Success?
    ensures r.Success? ==> |r.value| == |elements|
    ensures r.Success? ==> forall i | 0 <= i < |elements| :: FromDict(elements[i], decode) == Success(r.value[i])
    ensures r.Failure? ==> exists i | 0 <= i < |elements| ::
      && FromDict(elements[i], decode) == Failure(r.error)
      && forall j | 0 <= j < i :: FromDict(elements[j], decode).Success?
  {
    if elements == [] then Success([])
    else
      var first :- FromDict(elements[0], decode);
      var rest :- DecodeRecords(elements[1..], decode);
      Success([first] + rest)
  }

  /** `[Model.from_dict(x) for x in data.get(key, [])]`. */
  function RecordList<T>(data: Json, key: string, decode: map<string, Json> -> Result<T, Fault>): (r: Result<seq<T>, Fault>)
    ensures !data.JObject? ==> r == Failure(AttributeError)
    ensures data.JObject? && key !in data.fields ==> r == Success([])
  {
    var items :- Get(data, key, JArray([]));
    var elements :- LoopElements(items, TypeError);
    DecodeRecords(elements, decode)
  }

  /** The replies a list method gets through: a status below 400 and a
      dict body that holds under `key` either nothing or something the loop
      can go through, each of whose elements decodes. */
  predicate ListReplyDecodes<T>(reply: Reply, key: string, decode: map<string, Json> -> Result<T, Fault>) {
    && reply.Reply? && reply.status < FirstErrorStatus && reply.body.JObject?
    && (key in reply.body.fields ==>
          var elements := LoopElements(reply.body.fields[key], TypeError);
          && elements.Success?
          && forall i | 0 <= i < |elements.value| :: FromDict(elements.value[i], decode).Success?)
  }

  /** `records` are the decoded elements under `key` of the reply's body, in
      order, and none when the key is missing. */
  ghost predicate ListedRecords<T>(reply: Reply, key: string, decode: map<string, Json> -> Result<T, Fault>, records: seq<T>) {
    && reply.Reply? && reply.body.JObject?
    && (key !in reply.body.fields ==> records == [])
    && (key in reply.body.fields ==>
          var elements := LoopElements(reply.body.fields[key], TypeError);
          && elements.Success?
          && |records| == |elements.value|
          && forall i | 0 <= i < |records| :: FromDict(elements.value[i], decode) == Success(records[i]))
  }

  /** A GET whose response lists records under `key`. A failing status or
      client error propagates unchanged; on success the records are those
      of the list under `key`, one per element and in order, and none when
      the key is missing. */
  function ListRequest<T>(send: Request -> Reply, request: Request, key: string, decode: map<string, Json> -> Result<T, Fault>): (r: Result<seq<T>, ClientError>)
    ensures CheckStatus(send(request)).Failure? ==> r == Failure(CheckStatus(send(request)).error)
    ensures r.Success? ==>
      var reply := send(request);
      && reply.Reply? && reply.status < FirstErrorStatus && reply.body.JObject?
      && (key !in reply.body.fields ==> r.value == [])
      && (key in reply.body.fields && reply.body.fields[key].JArray? ==>
            var items := reply.body.fields[key].items;
            |r.value| == |items| && forall i | 0 <= i < |items| :: FromDict(items[i], decode) == Success(r.value[i]))
    ensures r.Success? <==> ListReplyDecodes(send(request), key, decode)
    ensures r.Success? ==> ListedRecords(send(request), key, decode, r.value)
  {
    var data :- Call(send, request);
    Lift(RecordList(data, key, decode))
  }

  /** The first element that fails to build its record decides the error
      of a list call: a dict lacking a field the record requires makes
      `from_dict` raise pydantic's `ValidationError`, and the caller gets
      that fault, whatever the later elements hold. */
  lemma {:induction false} ListRequestReportsFirstFailure<T>(send: Request -> Reply, request: Request, key: string,
                                                           decode: map<string, Json> -> Result<T, Fault>, k: nat, f: Fault)
    requires send(request).Reply? && send(request).status < FirstErrorStatus
    requires send(request).body.JObject? && key in send(request).body.fields
    requires send(request).body.fields[key].JArray?
    requires k < |send(request).body.fields[key].items|
    requires FromDict(send(request).body.fields[key].items[k], decode) == Failure(f)
    requires forall j | 0 <= j < k :: FromDict(send(request).body.fields[key].items[j], decode).Success?
    ensures ListRequest(send, request, key, decode) == Failure(PythonFault(f))
  {
    var items := send(request).body.fields[key].items;
    var d := DecodeRecords(items, decode);
    assert !FromDict(items[k], decode).Success?;
    assert d.Failure?;
    var i :| 0 <= i < |items| && FromDict(items[i], decode) == Failure(d.error)
      && forall j | 0 <= j < i :: FromDict(items[j], decode).Success?;
    assert i == k;
    assert RecordList(send(request).body, key, decode) == Failure(f);
  }

  /** The query parameters of a filter: the filter only when it is a
      non-empty string. */
  function FilterParams(name: string, value: Option<string>): (params: map<string, Json>)
    ensures params.Keys <= {name}
    ensures name in params <==> value.Some? && value.value != ""
    ensures name in params ==> params[name] == JString(value.value)
  {
    if value.Some? && value.value != "" then map[name := JString(value.value)] else map[]
  }

  function CasinoGamesRequest(category: Option<string>): Request {
    Request("GET", CasinoGamesEndpoint, Some(FilterParams("category", category)), None)
  }

  function SportsEventsRequest(sport: Option<string>): Request {
    Request("GET", SportsEventsEndpoint, Some(FilterParams("sport", sport)), None)
  }

  function BetHistoryRequest(limit: int): Request {
    Request("GET", BetHistoryEndpoint, Some(map["limit" := JNumber(limit as real)]), None)
  }

  /** `get_casino_games`: the games listed under `games`; a failing status
      or client error propagates unchanged. */
  function GetCasinoGames<T>(send: Request -> Reply, category: Option<string>, decode: map<string, Json> -> Result<T, Fault>): (r: Result<seq<T>, ClientError>)
    ensures CheckStatus(send(CasinoGamesRequest(category))).Failure? ==> r == Failure(CheckStatus(send(CasinoGamesRequest(category))).error)
    ensures r.Success? <==> ListReplyDecodes(send(CasinoGamesRequest(category)), "games", decode)
    ensures r.Success? ==> ListedRecords(send(CasinoGamesRequest(category)), "games", decode, r.value)
  {
    ListRequest(send, CasinoGamesRequest(category), "games", decode)
  }

  /** `get_sports_events`: the events listed under `events`; a failing
      status or client error propagates unchanged. */
  function GetSportsEvents<T>(send: Request -> Reply, sport: Option<string>, decode: map<string, Json> -> Result<T, Fault>): (r: Result<seq<T>, ClientError>)
    ensures CheckStatus(send(SportsEventsRequest(sport))).Failure? ==> r == Failure(CheckStatus(send(SportsEventsRequest(sport))).error)
    ensures r.Success? <==> ListReplyDecodes(send(SportsEventsRequest(sport)), "events", decode)
    ensures r.Success? ==> ListedRecords(send(SportsEventsRequest(sport)), "events", decode, r.value)
  {
    ListRequest(send, SportsEventsRequest(sport), "events", decode)
  }

  /** The `limit` `get_bet_history` uses when the caller names none. */
  const DefaultBetHistoryLimit: int := 50

  /** `get_bet_history`: the bets listed under `bets`; a failing status or
      client error propagates unchanged. */
  function GetBetHistory<T>(send: Request -> Reply, limit: int, decode: map<string, Json> -> Result<T, Fault>): (r: Result<seq<T>, ClientError>)
    ensures CheckStatus(send(BetHistoryRequest(limit))).Failure? ==> r == Failure(CheckStatus(send(BetHistoryRequest(limit))).error)
    ensures r.Success? <==> ListReplyDecodes(send(BetHistoryRequest(limit)), "bets", decode)
    ensures r.Success? ==> ListedRecords(send(BetHistoryRequest(limit)), "bets", decode, r.value)
  {
    ListRequest(send, BetHistoryRequest(limit), "bets", decode)
  }

  /** `get_casino_games` sends the category only when it is a non-empty
      string. */
  lemma CasinoGamesParams(category: Option<string>)
    ensures CasinoGamesRequest(category).params.Some?
    ensures "category" in CasinoGamesRequest(category).params.value <==> category.Some? && category.value != ""
    ensures CasinoGamesRequest(category).params.value.Keys <= {"category"}
  {
  }

  /** `get_sports_events` sends the sport only when it is a non-empty
      string. */
  lemma SportsEventsParams(sport: Option<string>)
    ensures SportsEventsRequest(sport).params.Some?
    ensures "sport" in SportsEventsRequest(sport).params.value <==> sport.Some? && sport.value != ""
    ensures SportsEventsRequest(sport).params.value.Keys <= {"sport"}
  {
  }

  /** `get_bet_history` always sends exactly the limit. */
  lemma BetHistoryParams(limit: int)
    ensures BetHistoryRequest(limit).params.Some?
    ensures BetHistoryRequest(limit).params.value.Keys == {"limit"}
    ensures BetHistoryRequest(limit).params.value["limit"] == JNumber(limit as real)
  {
  }
}

# StakeAPI client core in Dafny

A model of the pure logic inside the `stakeapi` Python client for the
stake.com API, with proofs about it. Three parts of the library are covered:

- **Validators and helpers** (`stakeapi/utils.py`): the API-key format check, the
  inclusive bet-limit check, the win-rate percentage, the game-name sanitiser,
  and the currency display format.
- **The credential holder** (`stakeapi/auth.py`): `AuthManager` as an immutable
  record of access token, session cookie and expiry time, with its setters, its
  header and cookie rendering, and its expiry test. The clock is an explicit
  `now` argument. The two scanners that pull the `x-access-token` header and the
  `session=` cookie out of a copied curl command line are modelled as
  left-to-right scans that reproduce Python's `re.search` on their two patterns.
- **The client's decisions around each HTTP call** (`stakeapi/client.py`), with
  the network as a function parameter `send: Request -> Reply`:
  - the status classification of `_request`;
  - the payload and the `errors`/`data` handling of `_graphql_request`;
  - the balance transform of `get_user_balance`;
  - the query parameters and record lists of `get_casino_games`,
    `get_sports_events` and `get_bet_history`.

  The endpoint paths are the constants of `stakeapi/endpoints.py`.

Modules:

| file | module | contents |
|---|---|---|
| `wrappers.dfy` | `Wrappers` | `Option` (Python's `None` or a value) and `Result` (a value or a raised exception) |
| `text.dfy` | `Text` | Python's `str.isspace`/`\s`, ASCII `\w` and case mapping, `strip`, `join`, decimal digits |
| `utils.dfy` | `Utils` | `stakeapi/utils.py` |
| `auth.dfy` | `Auth` | the `AuthManager` state and its operations |
| `curl.dfy` | `Curl` | `extract_access_token_from_curl` and `extract_session_from_curl` |
| `json.dfy` | `Json` | decoded JSON values, and Python's `in`, `[]`, `.get`, `.lower`, truthiness and `for` applied to them |
| `errors.dfy` | `Errors` | the exceptions the client raises |
| `client.dfy` | `Client` | the pure parts of `stakeapi/client.py` |

Python's dynamic behaviour is modelled where the client relies on it. A
response of an unexpected shape makes Python raise `TypeError`, `AttributeError`
or `KeyError`, and a list element that lacks a field its record requires makes
the record's constructor raise pydantic's `ValidationError` (the fault
`RecordValidationError`). The model returns that exception as `PythonFault`,
and no `requires` clause excludes such responses.

Three behaviours of the code that are easy to miss, and that the model keeps:

- `_graphql_request` fails on any `errors` key, even one holding an empty list.
- `set_access_token` records an expiry only for a truthy `expires_in`, so a
  lifetime of 0 leaves the previous expiry in place.
- `is_token_expired` treats a recorded expiry of 0 like no expiry.

Python's default arguments are named constants: `Utils.DefaultCurrency` is the
`currency="USD"` of `format_currency`, and `Client.DefaultBetHistoryLimit` is
the `limit=50` of `get_bet_history`. The model's functions take these
arguments explicitly.

Python's `re` details that the model reproduces:

- `$` in `^[a-zA-Z0-9]{32,64}$` also matches before one final newline, so a
  valid key followed by `"\n"` is accepted.
- `re.IGNORECASE` lets the KELVIN SIGN match `k` and LATIN SMALL LETTER LONG S
  match `s` in `x-access-token:`.
- Backtracking of `\s*` lets the token group be a single whitespace character
  when only whitespace precedes the closing quote.

## Model

| member | source | states |
|---|---|---|
| `Utils.ValidateApiKey` | stakeapi/utils.py:19-24 | an accepted key is present and 32 to 65 characters long; a key made only of ASCII letters and digits is accepted exactly when it is 32 to 64 characters long |
| `Utils.ValidateApiKeyMatchesPattern` | stakeapi/utils.py:19-24 | the key is accepted exactly when it is present, non-empty and matches `^[a-zA-Z0-9]{32,64}$` in Python's sense: 32 to 64 ASCII letters and digits, optionally followed by one final newline |
| `Utils.ApiKeyExamples` | stakeapi/utils.py:19-24 | None and "" are rejected; 32 letters are accepted; 16 letters, 30 letters plus `!@`, and 65 letters are rejected; 32 letters plus a newline are accepted |
| `Utils.ValidateBetAmount` | stakeapi/utils.py:121 | acceptance implies `min_bet <= max_bet`; an amount below the minimum or above the maximum is rejected; both limits themselves are accepted |
| `Utils.BetLimitsConvex` | stakeapi/utils.py:121 | any amount between two accepted amounts is accepted |
| `Utils.WinRate` | stakeapi/utils.py:103-106 | the rate is 0 when no bets were placed, and otherwise the number whose product with the bet count is 100 times the wins |
| `Utils.WinRateIsPercentage` | stakeapi/utils.py:103-106 | for `0 <= wins <= total_bets` the rate lies in [0, 100], and it is 100 exactly when every bet was won |
| `Utils.RemoveSpecials` | stakeapi/utils.py:138 | the result holds only characters of `[\w\s-]` and is no longer than the input |
| `Utils.RemoveSpecialsKeepsAllowed` | stakeapi/utils.py:138 | removing specials keeps exactly the characters of `[\w\s-]`, and text made only of those comes back unchanged |
| `Utils.RemoveSpecialsOfChar` | stakeapi/utils.py:138 | a single character is kept exactly when it is in `[\w\s-]` |
| `Utils.RemoveSpecialsAppend` | stakeapi/utils.py:138 | removal on two texts joined is removal on each, joined, so the kept characters keep their order and their number |
| `Utils.CollapseSpacesLength` | stakeapi/utils.py:139 | collapsing whitespace runs never lengthens the text, and leaves only empty text empty |
| `Utils.CollapsedIsJoinedWords` | stakeapi/utils.py:139 | collapsing whitespace runs to one space and stripping equals joining the whitespace-separated words with single spaces |
| `Utils.SanitizeGameName` | stakeapi/utils.py:134-141 | None and "" give ""; the result is never longer than the name |
| `Utils.SanitizedNameIsClean` | stakeapi/utils.py:134-139 | the result holds only word characters, `-` and spaces, has no space at either end, and never has two spaces in a row |
| `Utils.SanitizeJoinsWords` | stakeapi/utils.py:138-139 | the sanitised name is the words of the kept characters, in order, joined by single spaces |
| `Utils.SanitizeFixesCleanNames` | stakeapi/utils.py:138-139 | a name that is already clean is returned unchanged |
| `Utils.SanitizeIdempotent` | stakeapi/utils.py:134-139 | sanitising twice gives the same result as sanitising once |
| `Utils.SanitizeExamples` | stakeapi/utils.py:134-139 | None and "" give ""; "Mega Slots Deluxe" is returned unchanged |
| `Utils.AmountText` | stakeapi/utils.py:83 | the two-decimal amount text starts with `-` exactly for a negative amount and with a digit otherwise, writes the units without a leading zero, ends in `.` and two digits, and holds no space |
| `Utils.AmountTextRoundTrip` | stakeapi/utils.py:83 | the two-decimal amount text reads back as the same number of cents, sign included |
| `Utils.FormatCurrency` | stakeapi/utils.py:82-89 | the display text opens with `$` exactly for USD, with `€` exactly for EUR and with `£` exactly for GBP, whatever the case of the code |
| `Utils.FormatCurrencyRoundTrip` | stakeapi/utils.py:82-89 | the display text determines the amount and the currency: reading it back gives the cents and the upper-cased code, where USD, EUR and GBP are read only from their symbols, so the form written is fixed as well |
| `Utils.FormatCurrencyIgnoresCase` | stakeapi/utils.py:82-89 | two codes that upper-case to the same text give the same display text |
| `Utils.UsdExample` | stakeapi/utils.py:82-83 | 123.45 in USD is displayed as `$123.45` |
| `Utils.EurExample` | stakeapi/utils.py:84-85 | 100.00 in `eur` is displayed with the euro sign as `€100.00` |
| `Utils.NegativeDefaultExample` | stakeapi/utils.py:71-83 | -2.50 in the default currency is displayed as `$-2.50` |
| `Utils.GbpExample` | stakeapi/utils.py:86-87 | 0.07 in `Gbp` is displayed with the pound sign as `£0.07` |
| `Utils.OtherCurrencyExample` | stakeapi/utils.py:88-89 | 50.75 in `xyz` is displayed as `50.75 XYZ` |
| `Auth.NewAuthManager` | stakeapi/auth.py:14-24 | a new holder keeps the given token and cookie and is never expired |
| `Auth.GetAuthHeaders` | stakeapi/auth.py:33-38 | the headers hold `X-Access-Token` exactly when the token is a non-empty string, with the token as its value, and nothing else |
| `Auth.GetCookies` | stakeapi/auth.py:47-52 | the cookies hold `session` exactly when the cookie is a non-empty string, with the cookie as its value, and nothing else |
| `Auth.SetAccessToken` | stakeapi/auth.py:62-64 | the token is replaced; a present non-zero lifetime records the expiry `now + expires_in`, otherwise the old expiry stays; the cookie is untouched |
| `Auth.SetSessionCookie` | stakeapi/auth.py:73 | the cookie is replaced and the token and expiry are untouched |
| `Auth.IsTokenExpired` | stakeapi/auth.py:82-86 | without an expiry, or with an expiry of 0, the token is not expired; otherwise it is expired exactly when `now >= expires_at - 300` |
| `Auth.TokenExpiryIsMonotone` | stakeapi/auth.py:82-86 | once expired, a token stays expired at every later time |
| `Auth.SetAccessTokenExpiry` | stakeapi/auth.py:63-86 | after setting a token with a non-zero lifetime it is expired exactly from `now + expires_in - 300` on, so a lifetime of at most 300 seconds is expired at once |
| `Auth.SetAccessTokenKeepsExpiry` | stakeapi/auth.py:63-64 | setting a token without a lifetime, or with lifetime 0, keeps the expiry status the old token had |
| `Auth.SettersAreIndependent` | stakeapi/auth.py:33-73 | setting the token changes only the headers and setting the cookie changes only the cookies, each rendering the new value when non-empty |
| `Auth.ClearTokens` | stakeapi/auth.py:88-92 | token, cookie and expiry are all unset |
| `Auth.ClearTokensEffect` | stakeapi/auth.py:88-92 | clearing is idempotent and leaves no header, no cookie and a token that is not expired |
| `Curl.LeftmostMatch` | stakeapi/auth.py:109 | the search reports no position exactly when the pattern matches at none, and otherwise the first position where it matches |
| `Curl.FoldCase` | stakeapi/auth.py:109 | for the letters of `x-access-token:`, case-insensitive matching folds ASCII capitals to lower case, the KELVIN SIGN to `k` and the LONG S to `s`, and leaves every other character as it is (the dotted and dotless `i` do not arise, since the name has no `i`) |
| `Curl.FirstTokenMatch` | stakeapi/auth.py:108-109 | the token pattern's leftmost match: none exactly when it matches nowhere, otherwise a matching index with no match before it |
| `Curl.AccessTokenFoundIff` | stakeapi/auth.py:108-114 | a token is returned exactly when the pattern matches somewhere, and it is the stripped value of the leftmost match |
| `Curl.ExtractAccessTokenFromCurl` | stakeapi/auth.py:108-114 | a returned token contains no quote and has no whitespace at either end |
| `Curl.ExtractsHeaderValue` | stakeapi/auth.py:108-112 | on a command line with a `-H` option, whitespace, a quoted `x-access-token:` header in any letter case and a quote-free value, with no `-` earlier on the line, the token is the value stripped |
| `Curl.FoldedMatchOfItself` | stakeapi/auth.py:108-109 | a pattern written in folded letters matches its own text case-insensitively, from any position on |
| `Curl.StripOfQuoteFree` | stakeapi/auth.py:112 | stripping a quote-free value keeps it quote-free and leaves no whitespace at either end |
| `Curl.TokenExample` | stakeapi/auth.py:106-114 | on `curl -H "x-access-token: ABC123"` the token returned is `ABC123` |
| `Curl.FirstSessionMatch` | stakeapi/auth.py:130-131 | the cookie pattern's leftmost match: none exactly when `session=` is nowhere followed by a non-`;`, otherwise a matching index with no match before it |
| `Curl.SessionFoundIff` | stakeapi/auth.py:130-136 | a session is returned exactly when `session=` is followed by a non-`;` somewhere, and it is the stripped text of the leftmost match up to the next `;` |
| `Curl.ExtractSessionFromCurl` | stakeapi/auth.py:130-136 | a returned session contains no `;` and has no whitespace at either end |
| `Curl.ExtractsCookieValue` | stakeapi/auth.py:130-134 | on a command line with no `s` before `session=`, whose value is `;`-free and ended by `;` or the end of the line, the session is that value stripped |
| `Json.Contains` | stakeapi/client.py:174 | `in` is a key test on a dict, an element test on a list and a substring test on a str, and raises TypeError on anything else |
| `Json.GetItem` | stakeapi/client.py:175 | indexing by a str succeeds exactly on a dict holding the key, giving its value |
| `Json.Get` | stakeapi/client.py:178 | `.get` succeeds exactly on a dict, giving the value under the key or the default |
| `Json.LowerString` | stakeapi/client.py:288 | `.lower()` succeeds exactly on a str, giving it lower-cased |
| `Json.LoopElements` | stakeapi/client.py:287 | a loop over a list visits its items; a loop whose body needs dicts gets through only a list, an empty dict or an empty str |
| `Text.Strip` | stakeapi/utils.py:139 | `strip()` never lengthens the text and leaves no whitespace at either end |
| `Text.StripIsSurroundingWhitespace` | stakeapi/utils.py:139 | the stripped text is a stretch of the input with only whitespace before and after it; with the `Text.Strip` row this fixes `strip()` to removing exactly the outer whitespace runs |
| `Text.Lower` | stakeapi/client.py:288 | `lower()` keeps the length, leaves no ASCII capital, and each character agrees with the original up to case |
| `Text.Upper` | stakeapi/utils.py:82-89 | `upper()` keeps the length, leaves no ASCII small letter, and each character agrees with the original up to case |
| `Text.JoinLength` | stakeapi/client.py:176 | `', '.join` of no parts is empty, and otherwise as long as the parts together plus one separator between each two |
| `Text.JoinEnds` | stakeapi/client.py:176 | the joined text starts with the first part and ends with the last |
| `Client.Call` | stakeapi/client.py:122-138 | the decoded body comes back exactly when the reply has a status below 400; every failure is a StakeAPIError |
| `Client.CheckStatus` | stakeapi/client.py:128-138 | success exactly for a reply with status below 400, returning its body; AuthenticationError exactly for 401; RateLimitError exactly for 429; a status error carrying status and body exactly for the other statuses from 400 up; a transport failure becomes a StakeAPIError naming it; every failure is a StakeAPIError |
| `Client.GraphqlPayload` | stakeapi/client.py:161-169 | the payload always holds the query, holds the variables exactly when they are a non-empty dict, holds the operation name exactly when it is non-empty, and nothing else |
| `Client.GraphqlPayloadReadsBack` | stakeapi/client.py:161-169 | reading the payload back gives the query, the variables (or none) and the non-empty operation name, so leaving out the empty ones loses nothing |
| `Client.GraphqlHttpRequest` | stakeapi/client.py:171 | the GraphQL call is a POST to `/_api/graphql` with the payload as body and no query parameters |
| `Client.ErrorMessages` | stakeapi/client.py:175 | every error entry contributes its `message`, or `Unknown error` without one, in order; an entry that is not a dict raises |
| `Client.GraphqlErrorsMessage` | stakeapi/client.py:175-176 | for an error list the message is built exactly when every entry is a dict whose message, if any, is a str; it starts with `GraphQL errors: `; the only faults are AttributeError and TypeError |
| `Client.JoinStrings` | stakeapi/client.py:176 | joining succeeds exactly when every message is a str, and otherwise raises TypeError |
| `Client.HandleGraphqlResponse` | stakeapi/client.py:174-178 | a response with an `errors` key always fails; a dict without one gives its `data`, or an empty dict; a response that is not a dict raises a built-in exception |
| `Client.GraphqlErrorsAreReported` | stakeapi/client.py:174-176 | for well-formed error entries the failure is the StakeAPIError `GraphQL errors: ` followed by the messages joined with `, `; an empty list still fails |
| `Client.GraphqlRequest` | stakeapi/client.py:171-178 | a status failure propagates unchanged; a reply below 400 whose dict body has no `errors` key gives its `data`, or an empty dict, and one with an `errors` key fails; a success came only from the first kind of reply |
| `Client.BalancesJson` | stakeapi/client.py:277-280 | the result always has exactly the keys `available` and `vault` |
| `Client.BalanceEntry` | stakeapi/client.py:288-289 | an entry is read exactly when it is a dict whose currency, if present, is a str, and otherwise raises AttributeError; it gives the lower-cased currency (or "") and the amount (or 0) |
| `Client.AggregateBalances` | stakeapi/client.py:287-290 | the only fault the loop over a balance list raises is AttributeError |
| `Client.AggregateSucceedsIff` | stakeapi/client.py:287-290 | the loop over a balance list fails exactly when some entry is malformed |
| `Client.AggregateKeys` | stakeapi/client.py:287-290 | the table's keys are exactly the lower-cased currencies of the entries |
| `Client.AggregateLastWins` | stakeapi/client.py:287-290 | for each currency, the amount of the last entry with that currency is the one stored |
| `Client.BalanceTable` | stakeapi/client.py:286-297 | a balances dict without the list's name gives an empty table |
| `Client.TransformBalances` | stakeapi/client.py:282-297 | no `user`, a falsy `user`, or a `user` without `balances` gives two empty tables, not a failure |
| `Client.BalanceTablesAreIndependent` | stakeapi/client.py:282-297 | with well-formed lists, `available` and `vault` are each built from their own list alone |
| `Client.GetUserBalance` | stakeapi/client.py:274-299 | a status failure of the balance query propagates unchanged, and success requires a successful GraphQL call |
| `Client.UserBalanceRequestBody` | stakeapi/client.py:252-274 | the balance query is posted with the query text and the operation name `UserBalances` and without variables |
| `Client.UserBalanceWithoutUser` | stakeapi/client.py:277-282 | a successful answer without a truthy `user` gives two empty tables |
| `Client.UserBalanceFromReply` | stakeapi/client.py:274-297 | a successful answer whose `user.balances` holds well-formed lists gives the two tables built from those lists |
| `Client.DecodeRecords` | stakeapi/client.py:196 | the records succeed exactly when every element decodes; there is one per element, in order, each the decoding of its element; a failure is that of the first element that fails |
| `Client.RecordList` | stakeapi/client.py:196 | a response that is not a dict raises AttributeError; a missing key gives an empty list |
| `Client.ListRequest` | stakeapi/client.py:195-196 | a status failure propagates unchanged; the call succeeds exactly for a reply below 400 with a dict body whose entry under the key, if any, can be looped over and has only elements that decode; the records are then the decoded elements, in order, or none when the key is missing |
| `Client.ListRequestReportsFirstFailure` | stakeapi/models.py:42-44 | when an element under the key fails to build its record (a dict lacking a required field raises pydantic's `ValidationError`), the list call fails with that fault, the first failing element deciding it |
| `Client.GetCasinoGames` | stakeapi/client.py:191-196 | the games request's status failure propagates; success exactly when the games listed under `games` all decode, and then the result is those games in order |
| `Client.GetSportsEvents` | stakeapi/client.py:223-228 | the events request's status failure propagates; success exactly when the events listed under `events` all decode, and then the result is those events in order |
| `Client.GetBetHistory` | stakeapi/client.py:325-327 | the bet-history request's status failure propagates; success exactly when the bets listed under `bets` all decode, and then the result is those bets in order |
| `Client.FilterParams` | stakeapi/client.py:191-193 | the filter is sent exactly when it is a non-empty string, and nothing else is sent |
| `Client.CasinoGamesParams` | stakeapi/client.py:191-195 | the games request carries `category` exactly when it is non-empty, and no other parameter |
| `Client.SportsEventsParams` | stakeapi/client.py:223-227 | the events request carries `sport` exactly when it is non-empty, and no other parameter |
| `Client.BetHistoryParams` | stakeapi/client.py:325-326 | the bet-history request always carries exactly the parameter `limit` |

## Left out

- `safe_decimal` and `parse_datetime` in `stakeapi/utils.py` are left out. They are thin wrappers over `decimal.Decimal` and `datetime.fromisoformat`, whose grammars belong to the standard library.
- `validate_api_key` also rejects non-str arguments. The model's argument is an optional string, so other Python types cannot be passed.
- `format_currency` is modelled on whole cents. The rounding `Decimal` applies for `:.2f` to amounts with more digits is not modelled, and neither is the text `-0.00` of a negative amount that rounds to zero.
- `\w` and `str.lower`/`str.upper` are restricted to ASCII; Python applies them to all of Unicode. `\s` and `str.strip` are modelled on the full set of characters `str.isspace` accepts.
- Balance amounts are kept as the decoded JSON value. `float(amount)` is left out, including the ValueError or TypeError it raises for an amount that is not a number.
- The record types of `stakeapi/models.py` are left out. Building a record from a dict is the parameter `decode`, which may fail with `RecordValidationError` for a dict that does not fit the record; the model checks that each element is a dict and passes on the first failure of `decode`.
- `Errors.ApiStatusError` keeps the status and the decoded body. It does not keep the message text, which holds Python's rendering of the body.
- `response.json()` runs before the status check. A body whose content type is not JSON raises `aiohttp.ContentTypeError`, a client error, whatever the status; in the model that is a `ClientFailure` reply. An empty body decodes to `None`, a `JNull` body. A body served as JSON that does not parse raises `json.JSONDecodeError`, which `_request` does not catch; the model has no reply for it.
- Network plumbing is left out: the HTTP session and its default headers, the cookie jar, the timeout setting, `urljoin`, `close` and the async context manager.
- A request that outlives the session's total timeout raises `asyncio.TimeoutError`, which is not an `aiohttp.ClientError`, so it escapes `_request` uncaught; the model has no reply for it.
- The client constructor passes only the access token to its `AuthManager`. The client's own header and cookie setup are session plumbing and are left out.
- `get_game_details`, `get_user_profile` and `place_bet` are left out. Each makes one request and builds one record, with no decision of its own.
- The exception classes `ValidationError`, `NetworkError`, `GameNotFoundError` and `InsufficientFundsError` are left out, since no modelled code raises them.
- Auth.SetAccessToken: the expiry is an exact real. Python stores `time.time() + expires_in` as a binary float, so a large lifetime is rounded (for `expires_in = 2**53 + 1` at time 0 Python records `2**53`), and an `expires_in` beyond the float range raises `OverflowError`, which the model does not raise.
- Auth.IsTokenExpired: the comparison with `expires_at - 300` is exact. Python computes it in binary floating point, so near the rounding limit of a large expiry the two can disagree about whether the token has expired.
- Utils.WinRate: the rate is an exact real. Python computes it in binary floating point, so the rounding of `wins / total_bets * 100` is not modelled.
- Utils.ValidateBetAmount: the amounts are exact reals, not `Decimal` values. A NaN, which makes the comparison raise `InvalidOperation`, and the `Decimal` infinities cannot be passed.
- Some tests disagree with the code, and the model follows the code:
  - tests/test_utils.py:102 expects the euro sign in a mis-encoded form, while the code writes `€` itself;
  - tests/test_utils.py:171 expects a double space that the sanitiser collapses;
  - tests/test_client.py:15 passes an `api_key` keyword the constructor does not accept;
  - tests/test_client.py:95-100 expects a flat balance map from an older version.
- Client.GetUserBalance: its contract covers only how failures propagate. The tables it returns are stated by `Client.UserBalanceWithoutUser` and `Client.UserBalanceFromReply`, under the conditions those lemmas name.
- Client.TransformBalances: its contract covers only the cases that give empty tables. The tables built from well-formed lists are stated by `Client.BalanceTablesAreIndependent`.
- Client.BalanceTable: its contract covers only a missing list. A present list is described by `Client.AggregateKeys` and `Client.AggregateLastWins`.
- Client.HandleGraphqlResponse: for an `errors` key its contract says only that the call fails. The exact message is stated by `Client.GraphqlErrorsAreReported` for well-formed error entries.
- Client.RecordList: its contract covers only a non-dict response and a missing key. The list case is stated by `Client.ListRequest` and `Client.DecodeRecords`.

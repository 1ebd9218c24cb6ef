# Market-data query form: a verified model

The repository is a single React component, `App` (`src/App.js`), that lets a
user pick an exchange and a resolution, type a security token and choose a
date range, then requests market data from one endpoint and shows the JSON
reply or an error. This project models the part of it with logic in it:

- **Query construction** (`handleFetch`, lines 39-46): one `key=value` pair
  per non-empty input, in the order token, resolution, from, to, exchange, the
  value passed through `encodeURIComponent`; the pairs joined with `&` after
  `https://api.example.com?`, or the raw exchange value when there is no pair.
  `encodeURIComponent` is modelled as ECMA-262 defines it: ASCII letters,
  digits and `- _ . ! ~ * ' ( )` (the unreserved set of section 2.3 of
  RFC 2396) are copied, every other character becomes its UTF-8 bytes
  (RFC 3629), each written `%HH` with upper-case hex digits (section 2.1 of
  RFC 3986). A percent-decoder and a query splitter are written beside it as
  its inverse, to state the round trip.
- **Request life cycle** (lines 6-13, 32-57, 127): the component's eight
  pieces of state as the fields of a class `Form.App`; the five setters; the
  Fetch button, enabled only when an exchange is chosen; the start of a
  request (loading on, response and error cleared); and settlement, which
  turns loading off and records either the parsed body or an error message
  (`HTTP Error: <status>` for a status outside 200-299).

Files: `wrappers.dfy` (Option), `utf8.dfy` (RFC 3629 encoding of one
character and its decoder), `uri_component.dfy` (encodeURIComponent, the
loop that computes it, the decoder, the shape of encoded text),
`decimal.dfy` (the decimal text of a status code), `query.dfy` (the URL
handleFetch builds and how to read it back), `form.dfy` (option tables,
settlement, the component as a class).

`fetch` is a parameter: the class's `HandleFetch` and `Submit` take a
function from URL to `FetchResult` (a response with its status and parsed
or unparsable body, or a rejection with its message).

One behaviour of the code is easy to overlook, and the model keeps it as
written: the response state uses `null` for "no response", so a body that is
the JSON value `null` leaves neither a response nor an error after
settlement. `Form.SettleExclusive` states exactly this: response and error are
never both set, and one of them is set unless the body was JSON null.

## Model

| member | source | states |
|---|---|---|
| Utf8.DecodeEncode | src/App.js:40-44 | the UTF-8 bytes encodeURIComponent escapes for a character decode back to that character |
| Utf8.EncodeDecode | src/App.js:40-44 | any byte sequence that decodes to a character is that character's encoding (only the shortest form is accepted) |
| UriComponent.EncodeUriComponent | src/App.js:40-44 | the character-by-character loop produces exactly `UriComponent.Encode` of the input |
| UriComponent.DecodeEncode | src/App.js:40-44 | percent-decoding an encoded value gives the value back |
| UriComponent.EncodeInjective | src/App.js:40-44 | two values with the same encoding are equal |
| UriComponent.EncodeWellFormed | src/App.js:40-44 | an encoded value consists only of unreserved characters and %HH triples |
| UriComponent.EncodeHasNoDelimiters | src/App.js:40-44 | an encoded value contains no `&`, `=`, `?`, `#`, `+` or space |
| UriComponent.EncodeLength | src/App.js:40-44 | encoding never shortens a value, and keeps its length exactly when every character is unreserved |
| UriComponent.EncodeIdentity | src/App.js:40-44 | a value is sent unchanged if and only if all its characters are unreserved |
| Decimal.ParseShow | src/App.js:50 | the decimal text of a status reads back as that status |
| Decimal.ShowInjective | src/App.js:50 | distinct statuses have distinct decimal texts |
| Query.PushIfPresent | src/App.js:40 | one guarded push: nothing for an empty value, otherwise `key=` followed by the encoded value appended |
| Query.BuildUrl | src/App.js:39-46 | the five guarded pushes and the choice of URL produce exactly `Query.FullUrl` of the inputs |
| Query.PresentSpec | src/App.js:40-44 | an input contributes its own parameter exactly when it is non-empty, no other parameter is sent, and parameters come in the order token, resolution, from, to, exchange |
| Query.PresentInjective | src/App.js:40-44 | the parameters sent determine all five inputs |
| Query.FullUrlShape | src/App.js:46 | the URL is the endpoint plus the joined pairs if and only if some input is non-empty; otherwise it is the exchange value, which is then empty |
| Query.EndsWithExchange | src/App.js:44-46 | with an exchange chosen the URL ends with `exchange=` and the encoded exchange |
| Query.ParseFullUrl | src/App.js:39-46 | splitting the query on `&`, then on the first `=`, and decoding the values yields exactly the non-empty inputs in order |
| Query.FullUrlInjective | src/App.js:39-46 | different inputs never produce the same URL |
| Form.OptionValues | src/App.js:16-30 | the exchange selector stores one of "", NFO, NSE, EQ and the resolution selector one of "", 5, 10, 15, 30, 1D; only the first option is empty |
| Form.SelectableValuesSentVerbatim | src/App.js:16-30 | every selectable exchange or resolution value is unchanged by encodeURIComponent |
| Form.StatusOfHttpError | src/App.js:50 | the status can be read back from the `HTTP Error: <status>` message |
| Form.SettleExclusive | src/App.js:48-57 | after settlement response and error are never both set, and one is set unless the body was JSON null |
| Form.SettleError | src/App.js:48-57 | the error is set exactly when the status is not ok, the body does not parse or fetch rejects; it is exactly `HTTP Error: <status>` for a bad status (and the status reads back from it), the parser's message for an unparsable body, and the rejection's message for a failed fetch; otherwise the response is the parsed body |
| Form.App.constructor | src/App.js:6-13 | at mount every input is empty, nothing is loading, there is no response or error, and Fetch is disabled |
| Form.App.SetApiUrl | src/App.js:70 | the exchange becomes the value, no other input changes, loading, response and error are untouched, and Fetch is enabled exactly for a non-empty value |
| Form.App.SetResolution | src/App.js:85 | the resolution becomes the value and nothing else changes |
| Form.App.SetToken | src/App.js:103 | the token becomes the value and nothing else changes |
| Form.App.SetFromDate | src/App.js:113 | the from-date becomes the value and nothing else changes |
| Form.App.SetToDate | src/App.js:122 | the to-date becomes the value and nothing else changes |
| Form.App.ChooseExchange | src/App.js:69-78 | choosing option i stores that option's value, one of the table's values, and enables Fetch unless the placeholder was chosen |
| Form.App.ChooseResolution | src/App.js:84-93 | choosing option i stores that option's value, one of the table's values |
| Form.App.BeginFetch | src/App.js:34-46 | starting a request sets loading, clears response and error, leaves the inputs as they were and yields the URL of the inputs |
| Form.App.Complete | src/App.js:48-57 | settlement turns loading off and leaves response and error as the settlement function gives them, keeping the invariant that they never coexist |
| Form.App.HandleFetch | src/App.js:32-57 | a whole request: the URL of the inputs is fetched and the outcome for that URL settles the state |
| Form.App.Submit | src/App.js:127 | a request is made if and only if an exchange is chosen; a request made ends with loading off and response and error as settlement of its URL gives them; otherwise nothing changes |

## Left out

- The network transport of `fetch` and the JSON parser behind `response.json()`: both are replaced by the `FetchResult` value (status plus parsed or unparsable body, or a rejection message).
- `JSON.stringify(responseData, null, 2)`, the JSX markup, the `Error: ` prefix of the displayed error, the loading text, CSS and layout: presentation only. In particular a body of `false` or `""` is stored but not displayed, a body of `0` shows as a bare `0` without the Response block, and an empty error message shows no error line; the model stops at the stored state.
- Overlapping submissions and the last-completion-wins race between concurrent requests: `Form.App.Complete` requires a request in flight and the model runs one request at a time.
- `e.preventDefault()` and React's `useState` mechanics (batched, asynchronous state updates): the state changes are applied in program order.
- The `URIError` that encodeURIComponent throws on a lone UTF-16 surrogate: a Dafny `char` is a Unicode scalar value, so such input cannot be expressed.
- JSON numbers are modelled as unbounded integers in `Form.Json`; floating point is not modelled, and the body's content plays no part in any property.
- Status text: `Decimal.Show` covers the decimal text of a non-negative whole number only; fetch statuses are such numbers, so JavaScript's general number-to-string conversion is not modelled.
- The query reader used for the round trip decodes values only, compares keys as written and does not read `+` as a space; it is the inverse of this encoder, not a model of a particular URL parser.

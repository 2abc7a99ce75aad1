# THttpRequest request decoding, modelled in Dafny

This project models the request decoder of the TreeFrog web framework,
`THttpRequest` in `src/thttprequest.cpp`. A request is built from a parsed
header and a body. The constructor runs `parseBody`, which fills the query
items and, for a POST, the form items, the multipart data or the JSON body.
Accessors answer questions about those items: the effective HTTP method,
single and repeated values, bracketed form keys, cookies and the multipart
boundary. The static `generate` cuts a buffer of pipelined requests into
requests.

Modules:

- `Text` (`text.dfy`): the Qt byte-array and string operations the decoder
  relies on: `split` with and without empty parts, `value(i)` of a list,
  `trimmed` for bytes and for text, Latin-1 lower-casing, `startsWith`
  ignoring case, `indexOf` and `mid`. A byte is the `char` with the same
  code, so byte arrays and strings are both `string`. Qt converts a byte
  array to a `QString` in five places: the verb in `method()`, a cookie's
  name in `cookie(name)`, the query string, the content-type field in
  `boundary()`, and the trimmed content type in `parseBody` (with
  `fromLatin1`, which reads each byte as the character of the same code, as
  the model does). The model follows the cut at the first NUL byte for the
  verb and the cookie name (`UpToNul`) and keeps the bytes unchanged
  otherwise; the UTF-8 decoding and the `toLatin1` conversion back are
  listed under "Left out".
- `MultiMap` (`multimap.dfy`): a `QVariantMap` filled with `insertMulti`,
  kept as its pairs in insertion order. `value` answers with the newest value,
  `values` lists the newest first, and `unite` adds its argument's pairs
  after the existing ones.
- `Collaborators` (`collaborators.dfy`): the header parser, URL decoding,
  cookie parsing and the multipart decoder. They are not part of this model;
  each is a function value supplied by the caller. Every property holds
  whatever they compute, except where a member's precondition says
  otherwise: framing (`Framing`, `HttpRequest.Generate`) assumes a header
  parser whose content length is greater than -4 for every input
  (`Framing.Advances`); `Framing.PipelinedMessages` assumes a parser that
  reads each message's own body length; and the `/x?a=1&a=2` examples
  (`RequestParsing.RepeatedQueryItems`, `RepeatedQueryName`) assume a URL
  decoder that leaves `a`, `1` and `2` unchanged.
- `HttpMethods` (`httpmethod.dfy`): the 8-entry method table and
  `method()`, including the `_method` override of a POST.
- `RequestParsing` (`parsing.dfy`): what decoding computes, as functions:
  form-urlencoded and query items, the boundary, the cookie list, the
  `key[]` and `key[sub]` views of the form items, and the effect of
  `parseBody` on a request's content.
- `Framing` (`framing.dfy`): which header and body each request of a
  pipelined buffer gets, and the round trip from back-to-back messages to
  frames.
- `HttpRequests` (`httprequest.dfy`): the class `HttpRequest`. Its fields are
  the header and the four things decoding stores. The constructor and
  `ParseBody` update them in place. The loops of `parseBody`, `boundary()`,
  `cookies()`, `formItems(key)` and `generate` are methods, each proved to
  compute the function of `RequestParsing` or `Framing` that specifies it.
  The loop of `cookie(name)` (`FirstCookieValue`) is proved against a
  first-match property: it returns the value of the first cookie of the list
  with that name, or empty.

Some behaviours of the code are easy to misread; the model states them as
the code has them:

- For `/x?a=1&a=2`, `queryItemValue("a")` is `"2"`, the newest value, not
  the first one. `allQueryItemValues("a")` is `["2", "1"]`, newest first, not
  insertion order. This is how Qt's `QMap` answers `value` and `values` after
  `insertMulti`; `RequestParsing.RepeatedQueryName` proves both.
- In a `name=value` segment the value is the text between the first and the
  second `=`. Whatever follows a second `=` is dropped, not kept as part of
  the value; `RequestParsing.SegmentDropsAfterSecondEquals` proves this.
- A `_method` query item cannot change how the body is decoded. While
  `parseBody` runs inside the constructor the query items are still empty, so
  the dispatch uses the header verb alone (`RequestParsing.DecodeDispatchesOnVerb`).
  The override only affects `method()` once the request is built.
- A declared content length longer than the rest of the buffer gives a
  truncated body, and that request is the last one
  (`Framing.TruncatedBodyIsLast`).

## Model

| member | source | states |
|---|---|---|
| HttpMethods.ResolveInvalid | src/thttprequest.cpp:161-170 | the method is Invalid exactly when the verb, lower-cased byte by byte and cut at its first NUL byte, is not one of the table's 8 keys; otherwise it is a table entry |
| HttpMethods.ResolveWithoutOverride | src/thttprequest.cpp:170-180 | a verb other than POST resolves to its table entry whatever the query holds |
| HttpMethods.ResolveOverride | src/thttprequest.cpp:172-178 | a POST becomes the table entry of the newest `_method` query value when that value is a table key, and stays Post otherwise |
| HttpMethods.ResolveIgnoresCase | src/thttprequest.cpp:165-170 | any casing of `delete` in the header resolves to Delete |
| HttpMethods.OverrideIsCaseSensitive | src/thttprequest.cpp:175-177 | the `_method` value is not lower-cased: `DELETE` leaves a POST a POST, `delete` turns it into Delete |
| HttpMethods.VerbKey | src/thttprequest.cpp:165 | the lookup key: the verb lower-cased byte by byte, cut at its first NUL byte (a definition) |
| HttpMethods.Resolve | src/thttprequest.cpp:161-181 | the result is Invalid or a table entry; a verb whose lower-cased form is a table key other than `post` resolves to that entry |
| HttpMethods.VerbCutAtNul | src/thttprequest.cpp:165-170 | the verb `GET\0x` resolves to Get: the lookup uses the text before the NUL byte |
| HttpMethods.TableEntryNames | src/thttprequest.cpp:18-31 | only `get` maps to Get and only `post` maps to Post |
| HttpMethods.ResolveWithoutQuery | src/thttprequest.cpp:161-181 | with no query items the method is the table entry of the verb lower-cased byte by byte and cut at its first NUL byte, or Invalid |
| HttpRequests.HttpRequest.Method | src/thttprequest.cpp:161-181 | the request's method is Invalid exactly when its verb, lower-cased byte by byte and cut at its first NUL byte, is not a table key, and is otherwise one of the table's entries |
| HttpRequests.HttpRequest.constructor | src/thttprequest.cpp:77-83 | the new request keeps the header and holds exactly what decoding the body from an empty state gives |
| HttpRequests.HttpRequest.ParseBody | src/thttprequest.cpp:325-381 | the header is unchanged and the new content is the `parseBody` effect on the old content: a POST decodes its body by content type then its query, a GET its query, anything else nothing |
| HttpRequests.HttpRequest.AddFormItems | src/thttprequest.cpp:343-355 | the form items grow by one decoded pair per `&`-segment with a non-empty name, in order; nothing else changes |
| HttpRequests.HttpRequest.AddQueryItems | src/thttprequest.cpp:361-374 | the query items grow by the path's query items, in order; nothing else changes |
| HttpRequests.HttpRequest.HasQueryItem | src/thttprequest.cpp:202-205 | true exactly when some query item has that name |
| HttpRequests.HttpRequest.QueryItemValue | src/thttprequest.cpp:210-213 | the value is the first (newest) of all values of the name, and empty when the name is absent |
| HttpRequests.HttpRequest.QueryItemValueOr | src/thttprequest.cpp:221-224 | the default when the name has no query values, otherwise the first (newest) of its values |
| HttpRequests.HttpRequest.AllQueryItemValues | src/thttprequest.cpp:230-238 | one value per query item of that name, empty exactly when the name is absent; the `j`-th value is that of the item of that name followed by exactly `j` later ones (newest first) |
| HttpRequests.HttpRequest.HasFormItem | src/thttprequest.cpp:257-260 | true exactly when some form item has that name |
| HttpRequests.HttpRequest.FormItemValue | src/thttprequest.cpp:265-268 | the value is the first (newest) of all values of the name, and empty when the name is absent |
| HttpRequests.HttpRequest.FormItemValueOr | src/thttprequest.cpp:276-279 | the default when the name has no form values, otherwise the first (newest) of its values |
| HttpRequests.HttpRequest.AllFormItemValues | src/thttprequest.cpp:285-293 | one value per form item of that name, empty exactly when the name is absent; the `j`-th value is that of the item of that name followed by exactly `j` later ones (newest first) |
| HttpRequests.HttpRequest.FormItemList | src/thttprequest.cpp:299-306 | one value per form item named by the list key (`key` when it ends in `[]`, else `key[]`); empty exactly when no such item exists |
| HttpRequests.HttpRequest.FormItemListBracketed | src/thttprequest.cpp:299-306 | asking for `key` or for its bracketed form gives the same list |
| HttpRequests.HttpRequest.AllParameters | src/thttprequest.cpp:438-442 | holds every query and form item, and each name's values are its form values followed by its query values |
| HttpRequests.HttpRequest.Parameter | src/thttprequest.cpp:187-190 | a form item wins over a query item of the same name; otherwise the query value, or empty |
| HttpRequests.HttpRequest.FormItems | src/thttprequest.cpp:312-323 | the map is the sub-key view of the form items: each `key[s]` item gives `s`, the oldest value winning |
| HttpRequests.HttpRequest.Boundary | src/thttprequest.cpp:386-403 | the boundary computed is the one the content-type field specifies |
| HttpRequests.HttpRequest.FirstBoundary | src/thttprequest.cpp:392-400 | the loop stops at the first segment naming the boundary and returns `--` and its token, or empty |
| HttpRequests.HttpRequest.Cookies | src/thttprequest.cpp:423-433 | the cookies parsed from every trimmed, non-empty `;`-segment of the Cookie field, in order |
| HttpRequests.HttpRequest.CookieValue | src/thttprequest.cpp:408-418 | the value of the first cookie whose name, cut at its first NUL byte, equals the name asked for; empty when there is none |
| HttpRequests.HttpRequest.FirstCookieValue | src/thttprequest.cpp:411-417 | the scan returns the value of the first cookie in the list whose name, cut at its first NUL byte, equals the name asked for, or empty |
| HttpRequests.HttpRequest.Generate | src/thttprequest.cpp:445-465 | one request per frame of the buffer, in order, each with the frame's header and the content decoded from the frame's body |
| HttpRequests.HttpRequest.RequestAt | src/thttprequest.cpp:452-461 | one scan step builds the first frame's request and resumes strictly further on, where the remaining frames start |
| MultiMap.Contains | src/thttprequest.cpp:204 | `contains(name)`: some pair has that name (a definition) |
| MultiMap.Value | src/thttprequest.cpp:212 | an absent name gives the empty value |
| MultiMap.ValueOr | src/thttprequest.cpp:223 | the default when the name has no values, otherwise the head of its values list |
| MultiMap.Values | src/thttprequest.cpp:233 | at most one value per pair, and each value belongs to a pair of that name (the order is stated by `ValuesAt`) |
| MultiMap.ValuesAt | src/thttprequest.cpp:233 | the `j`-th entry of `values(name)` is the value of a pair of that name followed by exactly `j` later pairs of that name |
| MultiMap.ValuesOfName | src/thttprequest.cpp:233 | `values` has one entry per pair of that name, is empty exactly when the name is absent, and starts with `value` |
| MultiMap.ValueIsLatest | src/thttprequest.cpp:212 | `value` is the value of the last inserted pair of that name |
| MultiMap.Unite | src/thttprequest.cpp:441 | `unite`: the argument's pairs after the existing ones, which stay in place |
| MultiMap.UniteValue | src/thttprequest.cpp:438-442 | after `unite` a name of the other map answers with the other's value, any other name keeps its value |
| MultiMap.UniteContains | src/thttprequest.cpp:438-442 | after `unite` a name is present exactly when it is present in either map |
| MultiMap.UniteValuesAll | src/thttprequest.cpp:438-442 | after `unite`, for every name, the values are the other's values followed by the old ones |
| MultiMap.UniteValues | src/thttprequest.cpp:438-442 | after `unite` the values of a name are the other's values followed by the old ones |
| RequestParsing.FormUrlEncodedItems | src/thttprequest.cpp:343-355 | a non-empty body gives exactly one item per `&`-segment with a non-empty name |
| RequestParsing.QueryItems | src/thttprequest.cpp:361-374 | a non-empty query string gives exactly one item per `&`-segment with a non-empty name |
| RequestParsing.BoundaryOf | src/thttprequest.cpp:386-403 | a non-empty boundary starts with `--`; a content type that is not multipart after trimming gives none |
| RequestParsing.NameMatches | src/thttprequest.cpp:413 | the cookie's name, cut at its first NUL byte, equals the name asked for (a definition) |
| RequestParsing.CookiesOf | src/thttprequest.cpp:423-433 | a Cookie field without `;` gives the cookies of its single segment |
| RequestParsing.SubItems | src/thttprequest.cpp:312-323 | every key of the map is a non-empty, bracket-free sub-key |
| RequestParsing.PostBodyEffect | src/thttprequest.cpp:329-357 | the query items are untouched; a multipart type (after trimming, ignoring case) replaces the form items with the decoder's and records the body with the field's boundary; otherwise a JSON type sets the JSON data to the body; any other type appends the body's form-urlencoded items; each branch leaves the other parts alone |
| RequestParsing.ParseBodyEffect | src/thttprequest.cpp:327-380 | POST and GET append the path's query items; any method but POST leaves form items, multipart and JSON data unchanged |
| RequestParsing.NamedSegments | src/thttprequest.cpp:347 | the segments kept are exactly those with a non-empty name field |
| RequestParsing.PairItemsAreNamedSegments | src/thttprequest.cpp:345-354 | the items are the decoded name and value of each named segment, one each, in order |
| RequestParsing.PairItemsKeepDuplicates | src/thttprequest.cpp:351 | duplicates are kept: a name has as many values as segments naming it |
| RequestParsing.SegmentDropsAfterSecondEquals | src/thttprequest.cpp:346-350 | `name=value=rest` adds the pair (name, value); the rest is dropped |
| RequestParsing.SegmentWithoutValue | src/thttprequest.cpp:346-350 | a segment without `=` adds its name with an empty value |
| RequestParsing.SegmentWithValue | src/thttprequest.cpp:366-369 | a plain `name=value` segment adds that decoded pair |
| RequestParsing.EmptyBodyAddsNothing | src/thttprequest.cpp:343 | an empty form body adds no item |
| RequestParsing.FormItemsOfBody | src/thttprequest.cpp:343-355 | a body's form items are its decoded named `&`-segments, with one value per naming segment |
| RequestParsing.QueryStringBetweenMarks | src/thttprequest.cpp:361-362 | the query string is the text between the first and second `?` |
| RequestParsing.NoQueryWithoutMark | src/thttprequest.cpp:361-363 | a path without `?` has no query items |
| RequestParsing.QueryItemsOfPath | src/thttprequest.cpp:361-374 | the query items are the decoded named non-empty segments, with one value per naming segment |
| RequestParsing.TwoSegments | src/thttprequest.cpp:364 | two non-empty `&`-free segments joined by `&` split back into exactly those two |
| RequestParsing.PairItemsOfTwo | src/thttprequest.cpp:365-373 | two segments add the first one's item, then the second one's |
| RequestParsing.TwoPairQuery | src/thttprequest.cpp:361-374 | a query `n1=v1&n2=v2` adds both pairs in order, even for equal names |
| RequestParsing.RepeatedQueryItems | src/thttprequest.cpp:361-374 | the query of `/x?a=1&a=2` adds `(a, 1)` then `(a, 2)` |
| RequestParsing.RepeatedQueryName | src/thttprequest.cpp:361-374 | for `/x?a=1&a=2` the values of `a` are `2` then `1`, and its value is `2` |
| RequestParsing.FirstBoundaryParam | src/thttprequest.cpp:393-399 | the index of the first segment naming the boundary, or the length when none does |
| RequestParsing.FirstBoundaryParamAt | src/thttprequest.cpp:393-399 | an index with no boundary segment before it and a boundary segment at it is the first one |
| RequestParsing.BoundaryCharacterization | src/thttprequest.cpp:386-403 | the boundary is non-empty iff the type is multipart and some segment names the boundary; then it is `--` and the first such token |
| RequestParsing.CookiesOfJoin | src/thttprequest.cpp:426-431 | two Cookie fields joined by `;` give the first's cookies followed by the second's |
| RequestParsing.BlankSegmentHasNoCookies | src/thttprequest.cpp:428-430 | a blank segment yields no cookie, whatever the cookie parser does |
| RequestParsing.ListKey | src/thttprequest.cpp:301-304 | the looked-up key always ends in `[]`, and is the key itself exactly when it already did |
| RequestParsing.ListKeyIdempotent | src/thttprequest.cpp:301-304 | normalising a list key twice is normalising it once |
| RequestParsing.SubKeyExact | src/thttprequest.cpp:315-319 | a name has sub-key `s` iff it is `key[s]` with `s` non-empty and bracket-free |
| RequestParsing.SubItemsCharacterization | src/thttprequest.cpp:312-323 | a sub-key is present iff some item is named `key[s]`, and maps to the value of the first such item |
| RequestParsing.ParseBodyDispatch | src/thttprequest.cpp:327-380 | only POST and GET change the content; a GET only appends query items; a POST always appends the query items |
| RequestParsing.DecodeDispatchesOnVerb | src/thttprequest.cpp:77-83 | a new request dispatches on its header verb alone (lower-cased byte by byte, cut at its first NUL byte); verbs other than GET and POST leave it empty |
| RequestParsing.DecodeMultipartPost | src/thttprequest.cpp:329-333 | a multipart POST gets the multipart decoder's items as form items, the body with the field's boundary as multipart data, and no JSON data |
| RequestParsing.DecodeJsonPost | src/thttprequest.cpp:335-337 | a JSON POST gets its body as JSON data, no form items and no multipart data |
| RequestParsing.DecodeFormPost | src/thttprequest.cpp:341-356 | a form-urlencoded POST gets its body's items as form items, with no multipart or JSON data |
| Framing.BodyAt | src/thttprequest.cpp:456-460 | a content length of zero or less gives an empty body, otherwise the next bytes up to the length or the buffer's end |
| Framing.Frames | src/thttprequest.cpp:448-462 | the frames of the scan, defined step by step from where the scan resumes |
| Framing.FramesTail | src/thttprequest.cpp:451-461 | a separator past the start gives a first frame with the parsed header and the cut body, and the remaining frames are those found from just after the body |
| Framing.FramesBound | src/thttprequest.cpp:448-462 | every frame consumes at least one byte: a scan from `from` gives at most the buffer length minus `from` frames |
| Framing.FramesStep | src/thttprequest.cpp:451-461 | a separator found past index 0 gives a frame and the scan resumes after its body |
| Framing.SeparatorAtStart | src/thttprequest.cpp:451 | a buffer starting with the blank line yields no request |
| Framing.NoSeparator | src/thttprequest.cpp:451 | a buffer without the blank line yields no request |
| Framing.TruncatedBodyIsLast | src/thttprequest.cpp:459-461 | a length beyond the buffer gives the rest of the buffer as body, and that request is the last |
| Framing.FindsOwnSeparator | src/thttprequest.cpp:451 | the search from a message's start stops at that message's own blank line |
| Framing.FrameAt | src/thttprequest.cpp:451-461 | a separator after a non-empty header, followed by a whole body of the declared length, gives that frame and the scan resumes right after the body |
| Framing.FirstMessageFrame | src/thttprequest.cpp:451-461 | the first of back-to-back messages becomes the first frame and the scan resumes at the next message |
| Framing.PipelinedMessages | src/thttprequest.cpp:445-465 | well-formed messages sent back to back, each with its body's length, frame into exactly those messages, in order |
| Text.JoinSplit | src/thttprequest.cpp:344 | joining the pieces of a split gives back the text |
| Text.SplitJoin | src/thttprequest.cpp:344 | splitting a join of separator-free pieces gives back the pieces |
| Text.SkipEmpty | src/thttprequest.cpp:364 | `split(…, SkipEmptyParts)`: no entry is empty, and a text is an entry exactly when it is a non-empty part |
| Text.IndexOfFinds | src/thttprequest.cpp:451 | `indexOf` returns an occurrence at or after the start with none before it, or -1 when there is none |
| Text.UpToNul | src/thttprequest.cpp:165 | the converted text is the prefix of the bytes before their first NUL byte, and holds no NUL |
| Text.Mid | src/thttprequest.cpp:459 | at most the requested length of bytes from the position, fewer when the buffer ends first |
| Text.TrimIsInnerSlice | src/thttprequest.cpp:428 | a trimmed text is a slice of the original with no space at either end |

## Left out

- `src/tsqldatabasepool.h` is not part of this model: it only declares a thread-shared connection pool.
- JSON parsing: the model records only that the JSON branch hands the body to the parser (`jsonData`).
- Multipart decoding, header parsing, URL decoding and cookie parsing are not part of this model; they are parameters.
- The constructor that reads the body from a file is left out, because it performs file I/O.
- The client address is left out; it is only stored and never interpreted.
- Implicit sharing (copy constructor, assignment), debug logging and the commented-out `setRequest` are left out.
- `hasQuery()`, `hasForm()`, `queryItems()` and `header()` are inline accessors whose code is not in the modelled file.
- QVariant conversions are left out: every value is kept as text.
- HttpRequests.HttpRequest.Generate: requires the header parser to return a content length greater than -4 for every input byte string, not only for the headers actually parsed; with a smaller one the scan position does not advance and the loop is not modelled. Positions and lengths are unbounded integers, while the code keeps them in 32-bit `int`s: `headidx + contlen` at line 461 overflows for a content length near 2147483647, which the model does not capture.
- HttpRequests.HttpRequest.AddQueryItems: the query string is kept as bytes. The code converts it to a `QString`, which stops at the first NUL byte and decodes UTF-8 under Qt 5, and converts the parts back with `toLatin1`, which turns characters above U+00FF into `?`; for `/x?a=1\0&b=2` the code adds only `a`, the model adds both items.
- HttpRequests.HttpRequest.Boundary: the content-type field is kept as bytes. The code converts it to a `QString` (cut at the first NUL byte, UTF-8 decoded under Qt 5) and the boundary back with `toLatin1` (characters above U+00FF become `?`); the model treats every byte as the Latin-1 character of the same code.
- HttpRequests.HttpRequest.RequestAt: the next position `headidx + contlen` is an unbounded integer; in the code it is a 32-bit `int` whose overflow for a content length near 2147483647 is undefined behaviour, so "resumes strictly further on" holds only for lengths that fit.
- The UTF-8 decoding of the lower-cased verb in `method()` is not modelled; it cannot change whether the verb is a table key, because the keys are ASCII, lower-casing keeps every byte above 0x7F above 0x7F, and decoding never turns such bytes into an ASCII character.
- HttpRequests.HttpRequest.CookieValue: the cookie's name is cut at its first NUL byte but not decoded as UTF-8 before the comparison; a name with bytes above 0x7F is compared byte for character.
- HttpRequests.HttpRequest.FirstCookieValue: the same UTF-8 decoding of the cookie's name is not modelled.
- HttpRequests.HttpRequest.FormItems: the key is matched literally; regular-expression metacharacters in the key are not modelled.
- Text.LowerChar: case-insensitive comparison folds only Latin-1 letters, not the full Unicode case mapping Qt applies.

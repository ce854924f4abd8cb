# Local text and location link between two phones

This is a model of a React Native app in which one phone acts as a TCP server on port 8080
and another acts as a client. The client sends every edit of a text field as a whole frame.
On request it also sends the device position as `lat,lon`.

When a frame arrives, the server trims it and splits it on commas. If there are exactly two
fields and JavaScript's `!isNaN` accepts both, it stores them as the location. Otherwise the
trimmed frame replaces the text it shows.

The project has six modules:

- `Options` (options.dfy): the optional-value type shared by both peers.
- `JsString` (js_string.dfy): `String.prototype.trim` over the ECMAScript white space and line
  terminator code points, and `split` with a one-character separator. Split and join are
  proved inverse to each other.
- `JsNumber` (js_number.dfy): `!isNaN(s)` for a string, stated exactly. It holds iff the
  trimmed string is a StringNumericLiteral (section 7.1.4.1.1 of ECMA-262):
  - The empty string is accepted.
  - So are decimal literals with an optional sign, fraction and exponent, and `Infinity`.
  - So are unsigned `0x`/`0o`/`0b` integers.
  - The recognizer is proved equal to a datatype of literals and the text each one renders to.
- `Server` (server.dfy):
  - The frame classifier `Decode` and its classification lemmas.
  - The receiver state and its laws (idempotence, last write wins, one field per frame).
  - The component class `Receiver`, with its `data`, `error` and `close` handlers.
- `Client` (client.dfy):
  - The client component as a state machine over events: IP edit, connect request, connect
    callback, `error`, `close`, text edit, location send.
  - The state holds the written frames.
  - The invariant, the guard lemmas, and the component class `Client`, whose handlers are
    proved to match the state machine.
- `Protocol` (protocol.dfy): the round trip from the client's location frame to the server's
  location. It also proves that typed text of the form `<numeric>,<numeric>` is misread as a
  location, with or without white space around either field. A write of the empty string
  reaches the server as no frame at all (`Deliver`).

Inputs from outside the program are parameters:

- the bytes of each received frame, already decoded to a string;
- the entered server IP;
- the permission status;
- the position, with its coordinates already rendered as strings (`None` when reading the
  position fails).

## Model

| member | source | states |
|---|---|---|
| JsString.Trim | components/Server.js:19 | the body of the string between the first and the last code point that is not white space |
| JsString.TrimSplitsOffWhiteSpace | components/Server.js:19 | `trim` removes only white space, only from the two ends, and leaves no white space at either end |
| JsString.TrimOfPadded | components/Server.js:19 | trimming a string with no outer white space, padded with white space on both sides, gives back that string |
| JsString.TrimIgnoresPadding | components/Server.js:19 | adding white space at either end never changes the trimmed result |
| JsString.TrimAround | components/Server.js:19 | trimming `a` + `c` + `b`, with `c` not white space, strips white space only from the start of `a` and the end of `b` |
| JsString.TrimIdempotent | components/Server.js:19 | trimming twice is trimming once |
| JsString.IndexOf | components/Server.js:20 | the first position of a character, or the length when the character is absent |
| JsString.Split | components/Server.js:20 | `split` on one character gives one piece more than there are separators; no piece holds the separator; joining the pieces gives the string back |
| JsString.SplitJoin | components/Server.js:20 | splitting a join of separator-free pieces gives the same pieces back |
| JsString.SplitIntoTwo | components/Server.js:20-22 | a split yields exactly `[a, b]` iff the string is `a`, the separator and `b`, and neither holds the separator |
| JsNumber.IsNumericJS | components/Server.js:22 | `!isNaN(s)` on a string: the trimmed string is empty or a StringNumericLiteral; characterized by NumericLiteralGrammar and the lemmas below |
| JsNumber.IndexOfExponentMark | components/Server.js:22 | the position of the first `e` or `E`, or the length when there is none |
| JsNumber.ParseLiteral | components/Server.js:22 | every string the `isNaN` recognizer accepts is the rendering of a well-formed literal |
| JsNumber.LiteralAccepted | components/Server.js:22 | the rendering of any well-formed literal is accepted by the recognizer |
| JsNumber.NumericLiteralGrammar | components/Server.js:22 | the recognizer accepts a string iff it renders some well-formed literal |
| JsNumber.NumericShape | components/Server.js:22 | a string that passes `!isNaN` holds, once trimmed, only numeral characters, and starts with a digit, a sign, `.` or `I` |
| JsNumber.LettersAreNotNumeric | components/Server.js:22 | a field with a letter that cannot appear in a numeral there fails `!isNaN` |
| JsNumber.BlankIsNumeric | components/Server.js:22 | empty and all-white-space fields pass `!isNaN` |
| JsNumber.NumericIgnoresPadding | components/Server.js:22 | white space around a field never changes whether it passes `!isNaN` |
| JsNumber.RenderedIsTrimmed | components/Server.js:19-22 | a rendered literal has no outer white space and no comma |
| JsNumber.RenderedIsNumeric | components/Server.js:22 | every rendered literal passes `!isNaN` |
| JsNumber.CoordinateIsNumeric | components/Server.js:22 | a signed decimal with a fraction, the shape of a rendered coordinate, passes `!isNaN` |
| JsNumber.InfinityIsNumeric | components/Server.js:22 | `Infinity`, `+Infinity` and `-Infinity` pass `!isNaN` |
| JsNumber.HexadecimalIsNumeric | components/Server.js:22 | an unsigned `0x` integer passes `!isNaN` |
| JsNumber.SignedHexadecimalIsNotNumeric | components/Server.js:22 | a `-0x` integer fails `!isNaN` |
| JsNumber.DanglingExponentIsNotNumeric | components/Server.js:22 | digits followed by a bare `e` fail `!isNaN` |
| Server.Decode | components/Server.js:18-27 | a text frame carries the whole trimmed frame; a location frame's fields are the two numeric pieces on either side of the comma in the trimmed frame |
| Server.DecodeLocationIff | components/Server.js:19-24 | a frame decodes to location `(lat, lon)` iff its trimmed form is `lat,lon` with comma-free fields that both pass `!isNaN` |
| Server.DecodeTextOtherwise | components/Server.js:25-27 | a frame is text iff it has no such split, and then the text is the trimmed frame: decoding never fails |
| Server.NoCommaIsText | components/Server.js:20-27 | a frame without a comma is text |
| Server.ThreeOrMoreFieldsIsText | components/Server.js:20-27 | a frame with three or more fields is text |
| Server.NonNumericFieldIsText | components/Server.js:22-27 | a two-field frame with a field that fails `!isNaN` is text |
| Server.DecodeIgnoresPadding | components/Server.js:19 | a frame with extra white space at either end decodes the same |
| Server.DecodeTrimmed | components/Server.js:19 | decoding the trimmed frame gives the same result |
| Server.Apply | components/Server.js:22-27 | a location frame sets only the location; a text frame sets only the text |
| Server.Receive | components/Server.js:18-27 | a raw frame sets the location to its two fields and keeps the text, or sets the text to the trimmed frame and keeps the location |
| Server.ApplyIdempotent | components/Server.js:24-26 | applying the same frame twice equals applying it once |
| Server.ReceiveIdempotent | components/Server.js:18-27 | receiving the same frame twice equals receiving it once |
| Server.ReceiveAll | components/Server.js:18-27 | the server's state after each frame of a run has been received in turn |
| Server.ReceiveAllConcat | components/Server.js:18-27 | receiving two runs of raw frames one after the other equals receiving their concatenation |
| Server.ApplyAllConcat | components/Server.js:18 | applying two runs of frames one after the other equals applying their concatenation |
| Server.LocationsKeepText | components/Server.js:22-24 | a run of location frames never changes the text |
| Server.TextsKeepLocation | components/Server.js:25-27 | a run of text frames never changes the location |
| Server.LastTextWins | components/Server.js:26 | after any run, the text is that of the last text frame |
| Server.LastLocationWins | components/Server.js:24 | after any run, the location is that of the last location frame |
| Server.LastReceivedTextWins | components/Server.js:19-26 | after any run of raw frames, the text is the trimmed last frame that is not a location |
| Server.TextComesFromAFrame | components/Server.js:7-26 | the text is always the initial one or the text of a frame that was received |
| Server.Receiver.constructor | components/Server.js:7-8 | the initial state is empty text and no location |
| Server.Receiver.OnData | components/Server.js:18-27 | the handler's new state is `Receive` of the old state and the frame |
| Server.Receiver.OnError | components/Server.js:30 | the `error` handler changes nothing |
| Server.Receiver.OnClose | components/Server.js:31 | the `close` handler changes nothing |
| Client.Message | components/Client.js:29-35 | the error shown is one of the two fixed messages |
| Client.LocationText | components/Client.js:52 | the location frame: latitude, a comma, longitude; Protocol.LocationRoundTrip is its inverse on the server |
| Client.Next | components/Client.js:13-83 | the effect of each event on the component, as the handlers perform it; characterized by the lemmas below |
| Client.InitValid | components/Client.js:7-11 | the initial state has empty text and IP, no socket, no connection and no error, nothing written, and satisfies the invariant |
| Client.NextValid | components/Client.js:13-83 | every enabled event keeps the invariant: the socket was made for a non-empty IP on port 8080, being connected needs a socket, writes go to made sockets |
| Client.RunValid | components/Client.js:13-83 | every admitted run keeps the invariant |
| Client.RunConcat | components/Client.js:13-83 | running two traces one after the other equals running their concatenation |
| Client.ServerIPChangeOnlySetsIP | components/Client.js:66 | editing the IP field changes the IP and nothing else |
| Client.ConnectWithoutIP | components/Client.js:14-17 | connecting with an empty IP changes nothing: no socket, same connection state, nothing written |
| Client.ConnectCreatesSocket | components/Client.js:19-39 | connecting with an IP installs a fresh socket for that IP on port 8080 and resets neither `isConnected` nor `error` |
| Client.ConnectedOnlyByCallback | components/Client.js:21-37 | `isConnected` is true after an event iff the event is the connect callback, or it was true and the event is neither `error` nor `close` |
| Client.FailuresSetMessage | components/Client.js:27-37 | `error` sets "Error de conexión", `close` sets "Desconectado del servidor"; both set `isConnected` false and change nothing else |
| Client.ErrorNotClearedByEvent | components/Client.js:11-40 | no event clears the error; it stays unset iff it was unset and the event is no failure |
| Client.ErrorNeverCleared | components/Client.js:11-40 | after a run the error is unset iff it was unset at the start and no `error` or `close` fired in the run |
| Client.TextChangeWrites | components/Client.js:80-83 | a text edit always sets the text; it writes exactly the whole new value to the current socket iff a socket exists and there is no error; `isConnected` plays no part |
| Client.NoTextWritesAfterFailure | components/Client.js:13-83 | after any `error` or `close`, no later text edit writes anything, whatever events come between |
| Client.ReconnectStaysSilent | components/Client.js:13-83 | after a failure, connecting again and getting the connect callback leaves the client connected to a fresh socket, yet the next text edit is not written |
| Client.LocationSendWrites | components/Client.js:42-53 | sending the location writes exactly `lat,lon` to the current socket iff there is a socket, the client is connected, permission is granted and the position is read; otherwise it writes nothing; it changes nothing else |
| Client.NextWrites | components/Client.js:42-83 | each event writes nothing or appends one frame, which is its text value or its location frame |
| Client.WrittenOnlyGrows | components/Client.js:42-83 | a run keeps earlier writes as a prefix, appends at most one frame per event, and each appended frame comes from one of its events |
| Client.Client.constructor | components/Client.js:7-11 | the component starts in the initial state |
| Client.Client.SetServerIP | components/Client.js:66 | the IP field's handler matches the state machine |
| Client.Client.ConnectToServer | components/Client.js:13-40 | `connectToServer` matches the state machine |
| Client.Client.OnConnect | components/Client.js:21-24 | the connect callback matches the state machine |
| Client.Client.OnError | components/Client.js:27-31 | the `error` handler matches the state machine |
| Client.Client.OnClose | components/Client.js:33-37 | the `close` handler matches the state machine |
| Client.Client.OnChangeText | components/Client.js:80-83 | the text field's handler matches the state machine |
| Client.Client.SendLocation | components/Client.js:42-55 | `sendLocation` matches the state machine |
| Protocol.PortsAgree | components/Client.js:20 | the client connects to the port the server listens on (components/Server.js line 34) |
| Protocol.Deliver | components/Server.js:18 | a write of the empty string produces no `data` event; any other write arrives as one frame |
| Protocol.LocationTextIsTrimmed | components/Server.js:19 | a location frame built from coordinates with no outer white space is unchanged by `trim` |
| Protocol.LocationRoundTrip | components/Server.js:19-24 | the server decodes the location frame of numeric, comma-free coordinates with no outer white space as exactly those coordinates |
| Protocol.LiteralRoundTrip | components/Server.js:19-24 | coordinates rendered as numeric literals always come back as the same location |
| Protocol.SendThenReceive | components/Client.js:42-53 | when a connected client sends its position, the server that receives the frame records the position and keeps its text |
| Protocol.TrimmedPair | components/Server.js:19-22 | trimming `a,b` leaves two comma-free pieces, each numeric exactly when the typed field is |
| Protocol.TypedPairIsLocation | components/Server.js:22-24 | typed text of the form `<numeric>,<numeric>`, white space around the fields or not, is written verbatim and read by the server as a location, so the shown text does not change; without outer white space the location is exactly the two fields |
| Protocol.TypedIntegersAreLocation | components/Server.js:22-24 | two comma-separated decimal integers are read as a location |
| Protocol.LoneCommaIsLocation | components/Server.js:22-24 | a lone comma is read as the location with two empty coordinates |
| Protocol.TypedTextIsText | components/Server.js:18-27 | any other typed text is written whole and becomes the server's text, trimmed, with the location kept; clearing the field writes the empty string, which leaves the server unchanged |

## Left out

- Rendering, styling and `Alert.alert` dialogs (components/Client.js:57-94,
  components/Server.js:43-55) are UI only. As a result the model does not use the rendering's
  gating of controls: the IP field and Connect button are shown only while disconnected, the
  text field and Send button only while connected. Every UI event may happen in any state; the
  socket callbacks need a socket to exist (`Client.Enabled`). All properties hold over this
  larger set of runs.
- The socket library (`createConnection`, `createServer`, `listen`, `write`, `destroy`,
  `close`) is foreign code:
  - `write` appends to the written-frame sequence;
  - a new socket is a fresh id;
  - `listen` is the constants `Server.Port` and `Server.Host`.
- TCP delivery is not modelled beyond one rule: each non-empty write is one `data` event
  carrying exactly that frame, and an empty write produces no event (`Protocol.Deliver`). The
  library's splitting or coalescing of writes is not modelled.
- The conversion of received bytes to a string (`data.toString()`) is not modelled: frames
  are strings of code points. The model does not capture UTF-8 decoding, or UTF-16 code
  units beyond the Basic Multilingual Plane.
- The IP lookup (`NetworkInfo.getIPAddress`), the permission request and the position
  request are external services. Their results are event parameters. A failing position
  request is `None`: nothing is written, as in the unhandled rejection at
  components/Client.js:51.
- Number-to-string formatting of the coordinates uses floating point. The coordinates arrive
  as strings, so the round trip is stated for any coordinate text that meets its
  conditions. That includes every rendered JavaScript numeric literal.
- Async interleaving is not modelled. `sendLocation` awaits twice, and a socket change or
  failure between those awaits is not captured: each event is applied atomically.
- Stale callbacks are not modelled. The callbacks of a socket replaced by a later connect
  still update the shared state; the model does not tell which socket a callback came from.
- The `useEffect` cleanup and the Salir buttons' `close`/`destroy` (components/Server.js:40,
  53; components/Client.js:89) are teardown, which leaves the screen.
- App.js only switches screens and is not part of this model.
- Logging with `console.log` and `console.error` is not modelled.
- Client.LocationSendWrites and Protocol.SendThenReceive: the alert after a successful send
  (components/Client.js:54) is not modelled.

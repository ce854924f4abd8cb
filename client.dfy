/** The client peer (components/Client.js): it connects to a server by IP on a
    fixed port, writes every edit of its text field to the socket as a whole
    frame, and on request writes the device position as `lat,lon`. */
module Client {
  import opened Options

  /** The port the client connects to. */
  const ServerPort: nat := 8080

  /** The permission status under which the position may be read. */
  const Granted: string := "granted"

  /** The two errors the client shows; once set, neither is ever cleared. */
  datatype ClientError = ConnectionFailed | ServerClosed

  function Message(e: ClientError): (m: string)
    ensures m == "Error de conexi\U{00F3}n" || m == "Desconectado del servidor"
  {
    match e
    case ConnectionFailed => "Error de conexi\U{00F3}n"
    case ServerClosed => "Desconectado del servidor"
  }

  /** A socket made by one call of `connectToServer`; `id` tells the sockets
      of successive calls apart. */
  datatype Socket = Socket(id: nat, host: string, port: nat)

  /** One `socket.write`: the socket written to and the frame. */
  datatype Write = Write(socket: nat, frame: string)

  /** A position as the geolocation service delivers it, with both
      coordinates already rendered as strings. */
  datatype Coords = Coords(latitude: string, longitude: string)

  /** The location frame the client writes. */
  function LocationText(c: Coords): string {
    c.latitude + "," + c.longitude
  }

  /** The component's state; `created` counts the sockets made so far and
      `written` is everything written to any socket, oldest first. */
  datatype ClientState = ClientState(
    serverIP: string,
    text: string,
    socket: Option<Socket>,
    created: nat,
    isConnected: bool,
    error: Option<ClientError>,
    written: seq<Write>)

  /** Empty inputs, no socket, not connected, no error, nothing written. */
  const Init: ClientState := ClientState("", "", None, 0, false, None, [])

  /** Everything that can happen to the component. `LocationSend` carries the
      permission status and the position the geolocation service returns,
      `None` when reading the position fails. */
  datatype Event =
    | ServerIPChange(ip: string)
    | ConnectRequest
    | Connected
    | SocketError
    | SocketClosed
    | TextChange(value: string)
    | LocationSend(status: string, position: Option<Coords>)

  /** The socket callbacks that report a failure. */
  predicate IsFailure(e: Event) {
    e.SocketError? || e.SocketClosed?
  }

  /** The effect of one event. */
  function Next(s: ClientState, e: Event): ClientState {
    match e
    case ServerIPChange(ip) => s.(serverIP := ip)
    case ConnectRequest =>
      if s.serverIP == "" then s
      else s.(socket := Some(Socket(s.created, s.serverIP, ServerPort)), created := s.created + 1)
    case Connected => s.(isConnected := true)
    case SocketError => s.(error := Some(ConnectionFailed), isConnected := false)
    case SocketClosed => s.(error := Some(ServerClosed), isConnected := false)
    case TextChange(value) =>
      if s.socket.Some? && s.error.None? then
        s.(text := value, written := s.written + [Write(s.socket.value.id, value)])
      else s.(text := value)
    case LocationSend(status, position) =>
      if s.socket.None? || !s.isConnected || status != Granted || position.None? then s
      else s.(written := s.written + [Write(s.socket.value.id, LocationText(position.value))])
  }

  /** Socket callbacks only fire once a socket has been made; the inputs and
      buttons may be used at any time. */
  predicate Enabled(s: ClientState, e: Event) {
    (e.Connected? || IsFailure(e)) ==> s.socket.Some?
  }

  /** The effect of events one after another. */
  function Run(s: ClientState, t: seq<Event>): ClientState
    decreases |t|
  {
    if t == [] then s else Run(Next(s, t[0]), t[1..])
  }

  /** Every event of `t` is enabled in the state where it happens. */
  predicate Admits(s: ClientState, t: seq<Event>)
    decreases |t|
  {
    t == [] || (Enabled(s, t[0]) && Admits(Next(s, t[0]), t[1..]))
  }

  /** The state invariant: the current socket is one of those made, for the
      entered IP on the server port; being connected needs a socket; every
      write went to a socket that was made. */
  predicate Valid(s: ClientState) {
    (s.socket.Some? ==>
       s.socket.value.id < s.created && s.socket.value.host != "" && s.socket.value.port == ServerPort)
    && (s.isConnected ==> s.socket.Some?)
    && forall j | 0 <= j < |s.written| :: s.written[j].socket < s.created
  }

  lemma InitValid()
    ensures Valid(Init) && Init.socket.None? && !Init.isConnected && Init.error.None?
    ensures Init.text == "" && Init.serverIP == "" && Init.written == []
  {
  }

  lemma NextValid(s: ClientState, e: Event)
    requires Valid(s) && Enabled(s, e)
    ensures Valid(Next(s, e))
  {
  }

  lemma {:induction false} RunValid(s: ClientState, t: seq<Event>)
    requires Valid(s) && Admits(s, t)
    ensures Valid(Run(s, t))
    decreases |t|
  {
    if t != [] {
      NextValid(s, t[0]);
      RunValid(Next(s, t[0]), t[1..]);
    }
  }

  lemma {:induction false} RunConcat(s: ClientState, a: seq<Event>, b: seq<Event>)
    ensures Run(s, a + b) == Run(Run(s, a), b)
    decreases |a|
  {
    if a != [] {
      assert (a + b)[1..] == a[1..] + b;
      RunConcat(Next(s, a[0]), a[1..], b);
    } else {
      assert a + b == b;
    }
  }

  /** Editing the IP field only changes the IP. */
  lemma ServerIPChangeOnlySetsIP(s: ClientState, ip: string)
    ensures Next(s, ServerIPChange(ip)).serverIP == ip
    ensures Next(s, ServerIPChange(ip)).(serverIP := s.serverIP) == s
  {
  }

  /** Connecting without an IP does nothing at all: no socket, no change of
      the connection state, nothing written. */
  lemma ConnectWithoutIP(s: ClientState)
    requires s.serverIP == ""
    ensures Next(s, ConnectRequest) == s
  {
  }

  /** Connecting with an IP replaces the socket with a fresh one for that IP
      on the server port, and resets neither `isConnected` nor `error`. */
  lemma ConnectCreatesSocket(s: ClientState)
    requires s.serverIP != ""
    ensures var t := Next(s, ConnectRequest);
      t.socket == Some(Socket(s.created, s.serverIP, ServerPort))
      && (s.socket.Some? && Valid(s) ==> t.socket.value.id != s.socket.value.id)
      && t.isConnected == s.isConnected && t.error == s.error
      && t.text == s.text && t.written == s.written
  {
  }

  /** `isConnected` is true after an event exactly when the event is the
      connect callback, or the client was connected and the event is not a
      failure: only the connect callback turns it on, and both failures turn
      it off. */
  lemma ConnectedOnlyByCallback(s: ClientState, e: Event)
    ensures Next(s, e).isConnected <==> e.Connected? || (s.isConnected && !IsFailure(e))
  {
  }

  /** The failure callbacks set the fixed messages and disconnect, nothing else. */
  lemma FailuresSetMessage(s: ClientState, e: Event)
    requires IsFailure(e)
    ensures var t := Next(s, e);
      !t.isConnected && t.error.Some?
      && Message(t.error.value) == (if e.SocketError? then "Error de conexi\U{00F3}n" else "Desconectado del servidor")
      && t.(error := s.error, isConnected := s.isConnected) == s
  {
  }

  /** No event clears an error. */
  lemma ErrorNotClearedByEvent(s: ClientState, e: Event)
    ensures s.error.Some? ==> Next(s, e).error.Some?
    ensures Next(s, e).error.None? <==> s.error.None? && !IsFailure(e)
  {
  }

  /** Over a run, the error stays unset exactly when it was unset at the start
      and no failure callback fired; in particular an error, once set, is never
      cleared, whatever reconnects follow. */
  lemma {:induction false} ErrorNeverCleared(s: ClientState, t: seq<Event>)
    ensures Run(s, t).error.None? <==>
      s.error.None? && forall j | 0 <= j < |t| :: !IsFailure(t[j])
    decreases |t|
  {
    if t != [] {
      ErrorNotClearedByEvent(s, t[0]);
      ErrorNeverCleared(Next(s, t[0]), t[1..]);
      if forall j | 0 <= j < |t[1..]| :: !IsFailure(t[1..][j]) {
        forall j | 0 <= j < |t| ensures !IsFailure(t[j]) || IsFailure(t[0]) {
          if j > 0 { assert t[j] == t[1..][j - 1]; }
        }
      } else {
        var j :| 0 <= j < |t[1..]| && IsFailure(t[1..][j]);
        assert t[j + 1] == t[1..][j];
      }
    }
  }

  /** A text edit always sets the text, and writes exactly one frame, the whole
      new value to the current socket, exactly when a socket exists and there
      is no error; whether the client is connected plays no part. */
  lemma TextChangeWrites(s: ClientState, v: string)
    ensures var t := Next(s, TextChange(v));
      t.text == v
      && (s.socket.Some? && s.error.None? ==> t.written == s.written + [Write(s.socket.value.id, v)])
      && (s.socket.None? || s.error.Some? ==> t.written == s.written)
      && t.(text := s.text, written := s.written) == s
  {
  }

  /** Once a failure callback has fired, no later text edit writes anything,
      even after a reconnect and a new connect callback. */
  lemma NoTextWritesAfterFailure(s: ClientState, t1: seq<Event>, e: Event, t2: seq<Event>, v: string)
    requires IsFailure(e)
    ensures var before := Run(s, t1 + [e] + t2);
      Next(before, TextChange(v)).written == before.written
  {
    RunConcat(s, t1 + [e], t2);
    RunConcat(s, t1, [e]);
    assert Run(s, t1 + [e]).error.Some?;
    ErrorNeverCleared(Run(s, t1 + [e]), t2);
  }

  /** The reconnect quirk: after a failure, connecting again and getting the
      connect callback shows the text field again, but edits are not sent. */
  lemma ReconnectStaysSilent(s: ClientState, v: string)
    requires s.error.Some? && s.serverIP != ""
    ensures var r := Run(s, [ConnectRequest, Connected, TextChange(v)]);
      r.isConnected && r.socket == Some(Socket(s.created, s.serverIP, ServerPort))
      && r.text == v && r.written == s.written && r.error == s.error
  {
    var s1 := Next(s, ConnectRequest);
    var s2 := Next(s1, Connected);
    assert [ConnectRequest, Connected, TextChange(v)][1..] == [Connected, TextChange(v)];
    assert [Connected, TextChange(v)][1..] == [TextChange(v)];
    assert Run(s, [ConnectRequest, Connected, TextChange(v)]) == Run(s2, [TextChange(v)]);
  }

  /** Sending the location writes exactly one frame, `lat,lon`, to the current
      socket when there is a socket, the client is connected, permission is
      granted and the position is read; otherwise it writes nothing. It
      changes nothing else. */
  lemma LocationSendWrites(s: ClientState, status: string, position: Option<Coords>)
    ensures var t := Next(s, LocationSend(status, position));
      (s.socket.Some? && s.isConnected && status == Granted && position.Some? ==>
         t.written == s.written + [Write(s.socket.value.id, LocationText(position.value))])
      && (s.socket.None? || !s.isConnected || status != Granted || position.None? ==>
         t.written == s.written)
      && t.(written := s.written) == s
  {
  }

  /** The frame an event writes when it writes one. */
  predicate Sends(frame: string, e: Event) {
    (e.TextChange? && frame == e.value)
    || (e.LocationSend? && e.position.Some? && frame == LocationText(e.position.value))
  }

  lemma NextWrites(s: ClientState, e: Event)
    ensures Next(s, e).written == s.written
      || (Next(s, e).written == s.written + [Next(s, e).written[|s.written|]]
          && Sends(Next(s, e).written[|s.written|].frame, e))
  {
  }

  /** Writes are only ever appended: a run keeps what was written before as a
      prefix, adds at most one frame per event, and every frame it adds is a
      text edit or a location frame of one of its events. */
  lemma {:induction false} WrittenOnlyGrows(s: ClientState, t: seq<Event>)
    ensures |s.written| <= |Run(s, t).written| <= |s.written| + |t|
    ensures Run(s, t).written[..|s.written|] == s.written
    ensures forall k | |s.written| <= k < |Run(s, t).written| ::
      exists j | 0 <= j < |t| :: Sends(Run(s, t).written[k].frame, t[j])
    decreases |t|
  {
    if t != [] {
      var n := Next(s, t[0]);
      NextWrites(s, t[0]);
      WrittenOnlyGrows(n, t[1..]);
      var r := Run(s, t);
      assert r.written[..|n.written|] == n.written;
      assert r.written[..|s.written|] == r.written[..|n.written|][..|s.written|];
      forall k | |s.written| <= k < |r.written|
        ensures exists j | 0 <= j < |t| :: Sends(r.written[k].frame, t[j])
      {
        if k < |n.written| {
          assert r.written[k] == n.written[k];
          assert Sends(r.written[k].frame, t[0]);
        } else {
          var j :| 0 <= j < |t[1..]| && Sends(r.written[k].frame, t[1..][j]);
          assert t[1..][j] == t[j + 1];
        }
      }
    }
  }

  /** The component's state, updated in place by its handlers. */
  class Client {
    var serverIP: string
    var text: string
    var socket: Option<Socket>
    var created: nat
    var isConnected: bool
    var error: Option<ClientError>
    var written: seq<Write>

    function State(): ClientState
      reads this
    {
      ClientState(serverIP, text, socket, created, isConnected, error, written)
    }

    constructor ()
      ensures State() == Init
    {
      serverIP := "";
      text := "";
      socket := None;
      created := 0;
      isConnected := false;
      error := None;
      written := [];
    }

    /** The IP field's `onChangeText`. */
    method SetServerIP(ip: string)
      modifies this
      ensures State() == Next(old(State()), ServerIPChange(ip))
    {
      serverIP := ip;
    }

    /** `connectToServer`: without an IP it only alerts; otherwise it makes a
        new socket and keeps it, without touching the connection state. */
    method ConnectToServer()
      modifies this
      ensures State() == Next(old(State()), ConnectRequest)
    {
      if serverIP == "" {
        return;
      }
      var client := Socket(created, serverIP, ServerPort);
      created := created + 1;
      socket := Some(client);
    }

    /** The connect callback. */
    method OnConnect()
      modifies this
      ensures State() == Next(old(State()), Connected)
    {
      isConnected := true;
    }

    /** The socket's `error` handler. */
    method OnError()
      modifies this
      ensures State() == Next(old(State()), SocketError)
    {
      error := Some(ConnectionFailed);
      isConnected := false;
    }

    /** The socket's `close` handler. */
    method OnClose()
      modifies this
      ensures State() == Next(old(State()), SocketClosed)
    {
      error := Some(ServerClosed);
      isConnected := false;
    }

    /** The text field's `onChangeText`. */
    method OnChangeText(value: string)
      modifies this
      ensures State() == Next(old(State()), TextChange(value))
    {
      text := value;
      if socket.Some? && error.None? {
        written := written + [Write(socket.value.id, value)];
      }
    }

    /** `sendLocation`, with the permission status and the position as inputs. */
    method SendLocation(status: string, position: Option<Coords>)
      modifies this
      ensures State() == Next(old(State()), LocationSend(status, position))
    {
      if socket.None? || !isConnected {
        return;
      }
      if status != Granted {
        return;
      }
      if position.None? {
        return;
      }
      var coords := LocationText(position.value);
      written := written + [Write(socket.value.id, coords)];
    }
  }
}

/** The wire protocol between the two peers: what the client writes and how
    the server classifies it. */
module Protocol {
  import opened Options
  import opened JsString
  import opened JsNumber
  import Server
  import Client

  /** Both peers use the same port. */
  lemma PortsAgree()
    ensures Client.ServerPort == Server.Port
  {
  }

  /** What the server makes of one write: TCP carries bytes, not messages, so
      a write of the empty string puts nothing on the wire and no `data`
      event follows; any other write arrives as one frame. */
  function Deliver(r: Server.ReceiverState, frame: string): Server.ReceiverState {
    if frame == "" then r else Server.Receive(r, frame)
  }

  /** A location frame with no white space around it is its own trimmed form. */
  lemma LocationTextIsTrimmed(c: Client.Coords)
    requires NoOuterWhiteSpace(c.latitude) && NoOuterWhiteSpace(c.longitude)
    ensures Trim(Client.LocationText(c)) == Client.LocationText(c)
  {
    var f := Client.LocationText(c);
    assert f[|c.latitude|] == ',';
    assert c.latitude != [] ==> f[0] == c.latitude[0];
    assert c.longitude != [] ==> f[|f| - 1] == c.longitude[|c.longitude| - 1];
    assert [] + f + [] == f;
    TrimOfPadded([], f, []);
  }

  /** The round trip: a location frame made of numeric, comma-free coordinates
      without surrounding white space is decoded by the server as exactly
      those two coordinates. */
  lemma LocationRoundTrip(c: Client.Coords)
    requires IsNumericJS(c.latitude) && IsNumericJS(c.longitude)
    requires ',' !in c.latitude && ',' !in c.longitude
    requires NoOuterWhiteSpace(c.latitude) && NoOuterWhiteSpace(c.longitude)
    ensures Server.Decode(Client.LocationText(c)) == Server.LocationFrame(c.latitude, c.longitude)
  {
    LocationTextIsTrimmed(c);
    Server.DecodeLocationIff(Client.LocationText(c), c.latitude, c.longitude);
  }

  /** Any two coordinates written as JavaScript numeric literals meet those
      conditions, so they always come back as a location. */
  lemma LiteralRoundTrip(lat: Literal, lon: Literal)
    requires WellFormed(lat) && WellFormed(lon)
    ensures Server.Decode(Client.LocationText(Client.Coords(Render(lat), Render(lon))))
      == Server.LocationFrame(Render(lat), Render(lon))
  {
    RenderedIsTrimmed(lat);
    RenderedIsTrimmed(lon);
    RenderedIsNumeric(lat);
    RenderedIsNumeric(lon);
    LocationRoundTrip(Client.Coords(Render(lat), Render(lon)));
  }

  /** From one end to the other: when the client sends its position, the
      server that receives the frame it wrote records that position and keeps
      its text. */
  lemma SendThenReceive(s: Client.ClientState, r: Server.ReceiverState, lat: Literal, lon: Literal)
    requires WellFormed(lat) && WellFormed(lon)
    requires s.socket.Some? && s.isConnected
    ensures var c := Client.Coords(Render(lat), Render(lon));
      var t := Client.Next(s, Client.LocationSend(Client.Granted, Some(c)));
      |t.written| == |s.written| + 1
      && Deliver(r, t.written[|s.written|].frame)
         == r.(location := Some(Server.Location(Render(lat), Render(lon))))
  {
    var c := Client.Coords(Render(lat), Render(lon));
    Client.LocationSendWrites(s, Client.Granted, Some(c));
    LiteralRoundTrip(lat, lon);
  }

  /** Trimming `a,b` strips leading white space from `a` and trailing white
      space from `b` only, so each piece is still comma-free and is numeric
      exactly when the typed field is. */
  lemma TrimmedPair(a: string, b: string) returns (a': string, b': string)
    requires ',' !in a && ',' !in b
    ensures Trim(a + "," + b) == a' + "," + b'
    ensures ',' !in a' && ',' !in b'
    ensures IsNumericJS(a') == IsNumericJS(a) && IsNumericJS(b') == IsNumericJS(b)
  {
    var w1, w2;
    w1, a', b', w2 := TrimAround(a, ',', b);
    assert a == w1 + a' + [];
    assert b == [] + b' + w2;
    NumericIgnoresPadding(w1, a', []);
    NumericIgnoresPadding([], b', w2);
  }

  /** Misclassification: text the user types of the form `<numeric>,<numeric>`,
      with or without white space around either field, is written verbatim by
      the client and taken by the server as a location, so the shown text does
      not change; without outer white space the location is exactly the two
      fields. */
  lemma TypedPairIsLocation(s: Client.ClientState, r: Server.ReceiverState, a: string, b: string)
    requires IsNumericJS(a) && IsNumericJS(b) && ',' !in a && ',' !in b
    requires s.socket.Some? && s.error.None?
    ensures var t := Client.Next(s, Client.TextChange(a + "," + b));
      |t.written| == |s.written| + 1
      && t.written[|s.written|].frame == a + "," + b
      && Server.Decode(a + "," + b).LocationFrame?
      && Deliver(r, a + "," + b).receivedText == r.receivedText
      && (NoOuterWhiteSpace(a) && NoOuterWhiteSpace(b) ==>
            Server.Decode(a + "," + b) == Server.LocationFrame(a, b))
  {
    Client.TextChangeWrites(s, a + "," + b);
    var a', b' := TrimmedPair(a, b);
    Server.DecodeLocationIff(a + "," + b, a', b');
    if NoOuterWhiteSpace(a) && NoOuterWhiteSpace(b) {
      LocationRoundTrip(Client.Coords(a, b));
    }
  }

  /** So typing two decimal integers separated by a comma is read as a location. */
  lemma TypedIntegersAreLocation(a: string, b: string)
    requires a != [] && b != [] && DecimalDigits(a) && DecimalDigits(b)
    ensures Server.Decode(a + "," + b) == Server.LocationFrame(a, b)
  {
    var la := Decimal(NoSign, Digits(a, None, None));
    var lb := Decimal(NoSign, Digits(b, None, None));
    assert Render(la) == a;
    assert Render(lb) == b;
    LiteralRoundTrip(la, lb);
  }

  /** Because the empty string is numeric, so is a lone comma: it is read as
      the location with two empty coordinates. */
  lemma LoneCommaIsLocation(v: string)
    requires v == ","
    ensures Server.Decode(v) == Server.LocationFrame("", "")
  {
    BlankIsNumeric("");
    LocationRoundTrip(Client.Coords("", ""));
    assert Client.LocationText(Client.Coords("", "")) == v;
  }

  /** Any other text reaches the server as its trimmed self, except that
      clearing the field writes the empty string, which the server never sees. */
  lemma TypedTextIsText(s: Client.ClientState, r: Server.ReceiverState, v: string)
    requires s.socket.Some? && s.error.None?
    requires !(exists a, b :: Trim(v) == a + "," + b && ',' !in a && ',' !in b
                              && IsNumericJS(a) && IsNumericJS(b))
    ensures var t := Client.Next(s, Client.TextChange(v));
      |t.written| == |s.written| + 1 && t.written[|s.written|].frame == v
      && Deliver(r, v) == (if v == "" then r else r.(receivedText := Trim(v)))
  {
    Client.TextChangeWrites(s, v);
    Server.DecodeTextOtherwise(v);
  }
}

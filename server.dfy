/** The server peer (components/Server.js): it listens on every interface on a
    fixed port and, for each frame a connected client sends, either records a
    location or replaces the text it shows. */
module Server {
  import opened Options
  import opened JsString
  import opened JsNumber

  /** The listening endpoint. */
  const Port: nat := 8080
  const Host: string := "0.0.0.0"

  /** A received location: the two fields exactly as they appear in the frame. */
  datatype Location = Location(lat: string, lon: string)

  /** What one incoming frame means to the server. */
  datatype Frame = LocationFrame(lat: string, lon: string) | TextFrame(text: string)

  /** The classifier of the `data` handler: trim the frame, split it on `,`,
      and read it as a location when there are exactly two fields and both pass
      JavaScript's `!isNaN` test; otherwise the trimmed frame is text. */
  function Decode(data: string): (f: Frame)
    ensures f.TextFrame? ==> f.text == Trim(data)
    ensures f.LocationFrame? ==>
      Trim(data) == f.lat + "," + f.lon && IsNumericJS(f.lat) && IsNumericJS(f.lon)
  {
    var message := Trim(data);
    var parts := Split(message, ',');
    if |parts| == 2 && IsNumericJS(parts[0]) && IsNumericJS(parts[1]) then
      assert Join(parts, ',') == parts[0] + [','] + Join(parts[1..], ',');
      assert parts[1..] == [parts[1]];
      LocationFrame(parts[0], parts[1])
    else TextFrame(message)
  }

  /** A frame is a location `(lat, lon)` exactly when, once trimmed, it is
      `lat`, a comma and `lon`, neither field holds a comma, and both are
      numeric in the sense of `isNaN`. */
  lemma DecodeLocationIff(data: string, lat: string, lon: string)
    ensures Decode(data) == LocationFrame(lat, lon) <==>
      (Trim(data) == lat + "," + lon && ',' !in lat && ',' !in lon
       && IsNumericJS(lat) && IsNumericJS(lon))
  {
    SplitIntoTwo(Trim(data), ',', lat, lon);
  }

  /** Every frame that is not a location sets the text to the whole trimmed
      frame: decoding has no error case. In particular a frame without a
      comma, a frame with three or more fields, and a frame with a
      non-numeric field are text. */
  lemma DecodeTextOtherwise(data: string)
    ensures Decode(data).TextFrame? <==>
      !(exists lat, lon :: Trim(data) == lat + "," + lon && ',' !in lat && ',' !in lon
                           && IsNumericJS(lat) && IsNumericJS(lon))
    ensures Decode(data).TextFrame? ==> Decode(data) == TextFrame(Trim(data))
  {
    if Decode(data).LocationFrame? {
      DecodeLocationIff(data, Decode(data).lat, Decode(data).lon);
    }
    forall lat, lon | Trim(data) == lat + "," + lon && ',' !in lat && ',' !in lon
                      && IsNumericJS(lat) && IsNumericJS(lon)
      ensures Decode(data).LocationFrame?
    {
      DecodeLocationIff(data, lat, lon);
    }
  }

  lemma NoCommaIsText(data: string)
    requires ',' !in Trim(data)
    ensures Decode(data) == TextFrame(Trim(data))
  {
  }

  lemma ThreeOrMoreFieldsIsText(data: string)
    requires |Split(Trim(data), ',')| >= 3
    ensures Decode(data) == TextFrame(Trim(data))
  {
  }

  lemma NonNumericFieldIsText(data: string, lat: string, lon: string)
    requires Trim(data) == lat + "," + lon && ',' !in lat && ',' !in lon
    requires !IsNumericJS(lat) || !IsNumericJS(lon)
    ensures Decode(data) == TextFrame(Trim(data))
  {
    if Decode(data).LocationFrame? {
      DecodeLocationIff(data, Decode(data).lat, Decode(data).lon);
      DecodeLocationIff(data, lat, lon);
      SplitIntoTwo(Trim(data), ',', lat, lon);
      SplitIntoTwo(Trim(data), ',', Decode(data).lat, Decode(data).lon);
    }
  }

  /** Decoding trims first: surrounding white space never changes the meaning of a frame. */
  lemma DecodeIgnoresPadding(w1: string, data: string, w2: string)
    requires AllWhiteSpace(w1) && AllWhiteSpace(w2)
    ensures Decode(w1 + data + w2) == Decode(data)
  {
    TrimIgnoresPadding(w1, data, w2);
  }

  /** Decoding a frame that is already trimmed gives the same result. */
  lemma DecodeTrimmed(data: string)
    ensures Decode(Trim(data)) == Decode(data)
  {
    TrimIdempotent(data);
  }

  /** The state the server component shows: the last text and the last location. */
  datatype ReceiverState = ReceiverState(receivedText: string, location: Option<Location>)

  /** Before any frame arrives: no text and no location. */
  const Initial: ReceiverState := ReceiverState("", None)

  /** The effect of one decoded frame on the server's state. */
  function Apply(s: ReceiverState, f: Frame): (t: ReceiverState)
    ensures f.LocationFrame? ==>
      t.receivedText == s.receivedText && t.location == Some(Location(f.lat, f.lon))
    ensures f.TextFrame? ==> t.location == s.location && t.receivedText == f.text
  {
    match f
    case LocationFrame(lat, lon) => s.(location := Some(Location(lat, lon)))
    case TextFrame(text) => s.(receivedText := text)
  }

  /** The effect of one raw frame: a location frame only touches the location,
      a text frame only the text, which becomes the trimmed frame. */
  function Receive(s: ReceiverState, data: string): (t: ReceiverState)
    ensures Decode(data).LocationFrame? ==>
      t.receivedText == s.receivedText
      && t.location == Some(Location(Decode(data).lat, Decode(data).lon))
    ensures Decode(data).TextFrame? ==> t.location == s.location && t.receivedText == Trim(data)
  {
    Apply(s, Decode(data))
  }

  /** Applying the same frame twice is the same as applying it once. */
  lemma ApplyIdempotent(s: ReceiverState, f: Frame)
    ensures Apply(Apply(s, f), f) == Apply(s, f)
  {
  }

  /** Receiving the same raw frame twice is the same as receiving it once. */
  lemma ReceiveIdempotent(s: ReceiverState, data: string)
    ensures Receive(Receive(s, data), data) == Receive(s, data)
  {
    ApplyIdempotent(s, Decode(data));
  }

  /** The effect of decoded frames applied one after another. */
  function ApplyAll(s: ReceiverState, fs: seq<Frame>): ReceiverState
    decreases |fs|
  {
    if fs == [] then s else ApplyAll(Apply(s, fs[0]), fs[1..])
  }

  /** The decoded meaning of each raw frame, in order. */
  function DecodeAll(frames: seq<string>): (fs: seq<Frame>)
    ensures |fs| == |frames| && forall j | 0 <= j < |frames| :: fs[j] == Decode(frames[j])
  {
    seq(|frames|, j requires 0 <= j < |frames| => Decode(frames[j]))
  }

  /** The effect of raw frames received one after another. */
  function ReceiveAll(s: ReceiverState, frames: seq<string>): ReceiverState {
    ApplyAll(s, DecodeAll(frames))
  }

  lemma {:induction false} ApplyAllConcat(s: ReceiverState, a: seq<Frame>, b: seq<Frame>)
    ensures ApplyAll(s, a + b) == ApplyAll(ApplyAll(s, a), b)
    decreases |a|
  {
    if a != [] {
      assert (a + b)[1..] == a[1..] + b;
      ApplyAllConcat(Apply(s, a[0]), a[1..], b);
    } else {
      assert a + b == b;
    }
  }

  lemma DecodeAllConcat(a: seq<string>, b: seq<string>)
    ensures DecodeAll(a + b) == DecodeAll(a) + DecodeAll(b)
  {
    assert forall j | 0 <= j < |a + b| :: (a + b)[j] == if j < |a| then a[j] else b[j - |a|];
  }

  /** Receiving two runs of raw frames one after the other is receiving their
      concatenation: the server's state depends only on the frames, in order. */
  lemma ReceiveAllConcat(s: ReceiverState, a: seq<string>, b: seq<string>)
    ensures ReceiveAll(s, a + b) == ReceiveAll(ReceiveAll(s, a), b)
  {
    DecodeAllConcat(a, b);
    ApplyAllConcat(s, DecodeAll(a), DecodeAll(b));
  }

  /** Location frames never change the text. */
  lemma {:induction false} LocationsKeepText(s: ReceiverState, fs: seq<Frame>)
    requires forall j | 0 <= j < |fs| :: fs[j].LocationFrame?
    ensures ApplyAll(s, fs).receivedText == s.receivedText
    decreases |fs|
  {
    if fs != [] {
      LocationsKeepText(Apply(s, fs[0]), fs[1..]);
    }
  }

  /** Text frames never change the location. */
  lemma {:induction false} TextsKeepLocation(s: ReceiverState, fs: seq<Frame>)
    requires forall j | 0 <= j < |fs| :: fs[j].TextFrame?
    ensures ApplyAll(s, fs).location == s.location
    decreases |fs|
  {
    if fs != [] {
      TextsKeepLocation(Apply(s, fs[0]), fs[1..]);
    }
  }

  /** Splits a run of frames around its frame number i. */
  lemma ApplyAllAround(s: ReceiverState, fs: seq<Frame>, i: nat)
    requires i < |fs|
    ensures ApplyAll(s, fs) == ApplyAll(Apply(ApplyAll(s, fs[..i]), fs[i]), fs[i + 1..])
  {
    assert fs == fs[..i] + ([fs[i]] + fs[i + 1..]);
    ApplyAllConcat(s, fs[..i], [fs[i]] + fs[i + 1..]);
    assert ([fs[i]] + fs[i + 1..])[1..] == fs[i + 1..];
  }

  /** Text is last-write-wins: after any run of frames, the text is that of the
      last text frame, whatever came before it and whatever locations came after. */
  lemma LastTextWins(s: ReceiverState, fs: seq<Frame>, i: nat)
    requires i < |fs| && fs[i].TextFrame?
    requires forall j | i < j < |fs| :: fs[j].LocationFrame?
    ensures ApplyAll(s, fs).receivedText == fs[i].text
  {
    ApplyAllAround(s, fs, i);
    var rest := fs[i + 1..];
    forall j | 0 <= j < |rest| ensures rest[j].LocationFrame? {
      assert rest[j] == fs[i + 1 + j];
    }
    LocationsKeepText(Apply(ApplyAll(s, fs[..i]), fs[i]), rest);
  }

  /** Likewise the location is that of the last location frame. */
  lemma LastLocationWins(s: ReceiverState, fs: seq<Frame>, i: nat)
    requires i < |fs| && fs[i].LocationFrame?
    requires forall j | i < j < |fs| :: fs[j].TextFrame?
    ensures ApplyAll(s, fs).location == Some(Location(fs[i].lat, fs[i].lon))
  {
    ApplyAllAround(s, fs, i);
    var rest := fs[i + 1..];
    forall j | 0 <= j < |rest| ensures rest[j].TextFrame? {
      assert rest[j] == fs[i + 1 + j];
    }
    TextsKeepLocation(Apply(ApplyAll(s, fs[..i]), fs[i]), rest);
  }

  /** The same for raw frames: the shown text is the trimmed last frame that
      is not a location. */
  lemma LastReceivedTextWins(s: ReceiverState, frames: seq<string>, i: nat)
    requires i < |frames| && Decode(frames[i]).TextFrame?
    requires forall j | i < j < |frames| :: Decode(frames[j]).LocationFrame?
    ensures ReceiveAll(s, frames).receivedText == Trim(frames[i])
  {
    LastTextWins(s, DecodeAll(frames), i);
  }

  /** The shown text is always either still the initial one or the text of
      some frame that was applied. */
  lemma {:induction false} TextComesFromAFrame(s: ReceiverState, fs: seq<Frame>)
    ensures ApplyAll(s, fs).receivedText == s.receivedText
      || exists j | 0 <= j < |fs| :: fs[j].TextFrame? && ApplyAll(s, fs).receivedText == fs[j].text
    decreases |fs|
  {
    if fs != [] {
      var s' := Apply(s, fs[0]);
      TextComesFromAFrame(s', fs[1..]);
      var r := ApplyAll(s, fs);
      if r.receivedText != s.receivedText {
        if r.receivedText == s'.receivedText {
          assert fs[0].TextFrame? && r.receivedText == fs[0].text;
        } else {
          var j :| 0 <= j < |fs[1..]| && fs[1..][j].TextFrame? && r.receivedText == fs[1..][j].text;
          assert fs[1..][j] == fs[j + 1];
        }
      }
    }
  }

  /** The server component's state and its socket handlers. The TCP library
      delivers each `data` event as one frame; an `error` or `close` on the
      client's socket is only logged. */
  class Receiver {
    var receivedText: string
    var location: Option<Location>

    function State(): ReceiverState
      reads this
    {
      ReceiverState(receivedText, location)
    }

    constructor ()
      ensures State() == Initial
    {
      receivedText := "";
      location := None;
    }

    /** The `data` handler. */
    method OnData(data: string)
      modifies this
      ensures State() == Receive(old(State()), data)
      ensures Decode(data).LocationFrame? ==> receivedText == old(receivedText)
      ensures Decode(data).TextFrame? ==> location == old(location)
    {
      var message := Trim(data);
      var parts := Split(message, ',');
      if |parts| == 2 && IsNumericJS(parts[0]) && IsNumericJS(parts[1]) {
        location := Some(Location(parts[0], parts[1]));
      } else {
        receivedText := message;
      }
    }

    /** The `error` handler: logging only, so nothing changes. */
    method OnError(err: string)
      ensures State() == old(State())
    {
    }

    /** The `close` handler: logging only, so nothing changes. */
    method OnClose()
      ensures State() == old(State())
    {
    }
  }
}

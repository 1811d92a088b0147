/**
  The Bluetooth feed: the device state read from rfkill, the feed's `State` (last device
  state, rendered after a prefix), the first-match lookup over the rfkill
  entries, and the error-dropping event stream.
*/
module Bluetooth {
  import opened Wrappers
  import opened RustText

  /** The four states `from_byte` decodes (254, no device, is the value TLP's lookup uses). */
  datatype DeviceState = NoDev | OffHard | OffSoft | On

  /** The failures the feed can see; `Io` stands for any failed directory or file read. */
  datatype Error = Io | InvalidNumber(text: string) | InvalidStateByte(b: uint8)

  /** An alert raised by an update, carrying a message for a notification sink. */
  datatype Alert = Alert(message: string)

  /** Decodes the state byte; every byte outside {0, 1, 2, 254} is an error. */
  function FromByte(b: uint8): (r: Result<DeviceState, Error>)
    ensures r.Ok? <==> b in {0, 1, 2, 254}
    ensures r.Err? ==> r.error == InvalidStateByte(b)
  {
    match b
    case 0 => Ok(OffSoft)
    case 1 => Ok(On)
    case 2 => Ok(OffHard)
    case 254 => Ok(NoDev)
    case _ => Err(InvalidStateByte(b))
  }

  /** The byte `from_byte` maps to each state: the reference encoding `FromByte` inverts. */
  function ToByte(d: DeviceState): uint8 {
    match d
    case OffSoft => 0
    case On => 1
    case OffHard => 2
    case NoDev => 254
  }

  /** `FromByte` accepts exactly the bytes of this encoding and returns the state they encode. */
  lemma FromByteIsInverse(b: uint8, d: DeviceState)
    ensures FromByte(b) == Ok(d) <==> b == ToByte(d)
  {
  }

  /** The symbol the feed shows for the last device state it was given. */
  function Symbol(ds: Option<DeviceState>): (s: string)
    ensures s == "--" <==> ds == None || ds == Some(NoDev)
    ensures s == "on" <==> ds == Some(On)
    ensures s == "off" <==> ds == Some(OffSoft) || ds == Some(OffHard)
  {
    match ds
    case None => "--"
    case Some(NoDev) => "--"
    case Some(On) => "on"
    case Some(OffSoft) => "off"
    case Some(OffHard) => "off"
  }

  /** The feed's state: a fixed prefix and the last device state received, if any. */
  class State {
    const prefix: string
    var deviceState: Option<DeviceState>

    constructor (prefix: string)
      ensures this.prefix == prefix && deviceState == None
    {
      this.prefix := prefix;
      deviceState := None;
    }

    /** Overwrites the device state with the event; never fails and raises no alert. */
    method Update(msg: Option<DeviceState>) returns (r: Result<Option<seq<Alert>>, Error>)
      modifies this
      ensures deviceState == msg
      ensures r == Ok(None)
    {
      deviceState := msg;
      r := Ok(None);
    }

    /** The one line the feed writes: the prefix, the symbol, a newline. */
    method Display() returns (line: string)
      ensures line == prefix + Symbol(deviceState) + "\n"
    {
      var symbol := Symbol(deviceState);
      line := prefix + symbol + "\n";
    }
  }

  /** Displaying changes nothing, so two displays in a row write the same line. */
  method DisplayIsStable(s: State) returns (first: string, second: string)
    ensures first == second
  {
    first := s.Display();
    second := s.Display();
  }

  /** Before any event, a fresh state shows the prefix followed by "--". */
  method FreshDisplay(prefix: string) returns (line: string)
    ensures line == prefix + "--\n"
  {
    var s := new State(prefix);
    line := s.Display();
  }

  /** One entry under /sys/class/rfkill/: the text of its `type` file and of its `state` file, each of which may fail to read. */
  datatype Entry = Entry(kind: Result<string, Error>, state: Result<string, Error>)

  predicate IsBluetooth(e: Entry) {
    e.kind.Ok? && TrimEnd(e.kind.value) == "bluetooth"
  }

  /** The walk stops at an entry whose type cannot be read or whose type is Bluetooth. */
  predicate Stops(e: Entry) {
    e.kind.Err? || IsBluetooth(e)
  }

  /** `k` is the first entry at which the walk stops. */
  predicate FirstStop(entries: seq<Entry>, k: int) {
    && 0 <= k < |entries|
    && Stops(entries[k])
    && forall j :: 0 <= j < k ==> !Stops(entries[j])
  }

  /** The text of a `state` file, trimmed, parsed as a `u8` and decoded. */
  function DecodeState(text: string): (r: Result<DeviceState, Error>)
    ensures ParseU8(TrimEnd(text)).None? ==> r == Err(InvalidNumber(TrimEnd(text)))
    ensures r.Ok? ==> ParseU8(TrimEnd(text)) == Some(ToByte(r.value))
    ensures ParseU8(TrimEnd(text)).Some? && r.Err? ==> r == Err(InvalidStateByte(ParseU8(TrimEnd(text)).value))
    ensures forall d :: ParseU8(TrimEnd(text)) == Some(ToByte(d)) ==> r == Ok(d)
  {
    var t := TrimEnd(text);
    match ParseU8(t)
    case None => Err(InvalidNumber(t))
    case Some(b) => FromByte(b)
  }

  /** What the walk returns once it stops at entry `e`. */
  function StopOutcome(e: Entry): (r: Result<Option<DeviceState>, Error>)
    requires Stops(e)
    ensures r != Ok(None)
    ensures e.kind.Err? ==> r == Err(e.kind.error)
    ensures e.kind.Ok? && e.state.Err? ==> r == Err(e.state.error)
    ensures e.kind.Ok? && e.state.Ok? ==> (r.Ok? <==> DecodeState(e.state.value).Ok?)
    ensures r.Ok? ==> e.state.Ok? && r.value == Some(DecodeState(e.state.value).value)
    ensures e.kind.Ok? && e.state.Ok? && DecodeState(e.state.value).Err? ==> r == Err(DecodeState(e.state.value).error)
  {
    if e.kind.Err? then Err(e.kind.error)
    else match e.state
      case Err(err) => Err(err)
      case Ok(text) =>
        match DecodeState(text)
        case Err(err) => Err(err)
        case Ok(d) => Ok(Some(d))
  }

  /**
    `DeviceState::read`: walks the rfkill entries in order and returns the
    decoded state of the first whose trimmed type is "bluetooth"; `None` if the
    walk finds none; the first read, parse or decode error otherwise.
  */
  method Read(listing: Result<seq<Entry>, Error>) returns (r: Result<Option<DeviceState>, Error>)
    ensures listing.Err? ==> r == Err(listing.error)
    ensures listing.Ok? && (forall j :: 0 <= j < |listing.value| ==> !Stops(listing.value[j])) ==> r == Ok(None)
    ensures listing.Ok? ==> forall k :: FirstStop(listing.value, k) ==> r == StopOutcome(listing.value[k])
  {
    if listing.Err? {
      return Err(listing.error);
    }
    var entries := listing.value;
    var btStateOpt: Option<DeviceState> := None;
    var i := 0;
    while i < |entries|
      invariant 0 <= i <= |entries|
      invariant forall j :: 0 <= j < i ==> !Stops(entries[j])
    {
      var entry := entries[i];
      if entry.kind.Err? {
        return Err(entry.kind.error);
      }
      if TrimEnd(entry.kind.value) == "bluetooth" {
        if entry.state.Err? {
          return Err(entry.state.error);
        }
        var text := TrimEnd(entry.state.value);
        var parsed := ParseU8(text);
        if parsed.None? {
          return Err(InvalidNumber(text));
        }
        var decoded := FromByte(parsed.value);
        if decoded.Err? {
          return Err(decoded.error);
        }
        btStateOpt := Some(decoded.value);
        return Ok(btStateOpt);
      }
      i := i + 1;
    }
    return Ok(btStateOpt);
  }

  /** Every listing either has no stopping entry or a first one, so `Read`'s contract fixes its result. */
  lemma {:induction false} WalkIsDetermined(entries: seq<Entry>)
    ensures (forall j :: 0 <= j < |entries| ==> !Stops(entries[j])) || exists k :: FirstStop(entries, k)
  {
    if entries != [] && !Stops(entries[0]) {
      WalkIsDetermined(entries[1..]);
      if k :| FirstStop(entries[1..], k) {
        assert FirstStop(entries, k + 1);
      } else {
        assert forall j :: 1 <= j < |entries| ==> entries[j] == entries[1..][j - 1];
      }
    } else if entries != [] {
      assert FirstStop(entries, 0);
    }
  }

  /** A `state` file as the kernel writes it (decimal, newline-terminated) decodes exactly as its byte does. */
  lemma DecodeStateFile(b: uint8)
    ensures DecodeState(ShowDecimal(b) + "\n") == FromByte(b)
  {
    TrimEndShowLine(b);
    ParseShowRoundTrip(b);
  }

  /** So a well-formed state file for `d` reads back as `d`. */
  lemma DecodeStateFileOf(d: DeviceState)
    ensures DecodeState(ShowDecimal(ToByte(d)) + "\n") == Ok(d)
  {
    DecodeStateFile(ToByte(d));
  }

  /** `run`'s `filter_map`: failed reads are dropped, successful ones kept. */
  function Events(results: seq<Result<Option<DeviceState>, Error>>): (events: seq<Option<DeviceState>>)
    ensures |events| <= |results|
    ensures forall x :: x in events <==> Ok(x) in results
  {
    if results == [] then []
    else
      var rest := Events(results[1..]);
      assert forall x :: Ok(x) in results <==> results[0] == Ok(x) || Ok(x) in results[1..];
      match results[0]
      case Err(_) => rest
      case Ok(dev) => [dev] + rest
  }

  /** The stream of a concatenation is the concatenation of the streams: order is kept. */
  lemma {:induction false} EventsAppend(a: seq<Result<Option<DeviceState>, Error>>, b: seq<Result<Option<DeviceState>, Error>>)
    ensures Events(a + b) == Events(a) + Events(b)
  {
    if a == [] {
      assert a + b == b;
    } else {
      assert (a + b)[0] == a[0];
      assert (a + b)[1..] == a[1..] + b;
      EventsAppend(a[1..], b);
      match a[0]
      case Err(_) =>
      case Ok(dev) =>
        assert [dev] + (Events(a[1..]) + Events(b)) == [dev] + Events(a[1..]) + Events(b);
    }
  }

  /** A single read contributes its value when it succeeds and nothing when it fails. */
  lemma EventsOfOne(r: Result<Option<DeviceState>, Error>)
    ensures Events([r]) == if r.Ok? then [r.value] else []
  {
  }

  /** When no read fails, the stream is exactly the read values, in order. */
  lemma {:induction false} EventsAllOk(results: seq<Result<Option<DeviceState>, Error>>)
    requires forall i :: 0 <= i < |results| ==> results[i].Ok?
    ensures |Events(results)| == |results|
    ensures forall i :: 0 <= i < |results| ==> Events(results)[i] == results[i].value
  {
    if results != [] {
      EventsAllOk(results[1..]);
    }
  }

  /** When every read fails, the stream is empty. */
  lemma {:induction false} EventsAllErr(results: seq<Result<Option<DeviceState>, Error>>)
    requires forall i :: 0 <= i < |results| ==> results[i].Err?
    ensures Events(results) == []
  {
    if results != [] {
      EventsAllErr(results[1..]);
    }
  }
}

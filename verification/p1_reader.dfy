/** The per-line callback of the reader (`lineReader.eachLine` in
    `_setupSerialConnection`) as a pure step: a session state and one delivered
    line in, the next session state and the events emitted, in order, out. */
module P1Reader {
  import opened Wrappers
  import opened JsString
  import opened JsParseInt
  import opened Reassembler

  /** A decoded telegram. Only the timestamp matters to the reader; `null` is
      `None`. The remaining measurement fields are kept by name. */
  datatype Packet = Packet(timestamp: Option<string>, fields: map<string, string>)

  /** Everything the callback reads but never changes: the marker characters of
      the configuration file, the `crcCheckRequired` option, the port the
      callback was set up for, and the checksum validator and telegram decoder,
      whose definitions are not part of this model. `checkCrc` receives the
      trailer value that `parseInt` produced, with `None` for `NaN`. */
  datatype Env = Env(
    startCharacter: char,
    stopCharacter: char,
    crcCheckRequired: bool,
    port: string,
    checkCrc: (string, Option<int>) -> bool,
    parsePacket: string -> Packet)

  /** The state kept between lines: the receive buffer and the pinned port
      (`serialPortUsed`, where `None` is its initial `false`). */
  datatype Session = Session(received: string, serialPortUsed: Option<string>)

  /** The session at start-up: empty buffer, no port pinned. */
  const Initial: Session := Session("", None)

  /** What the callback emits, plus the failover request it makes. */
  datatype Event =
    | Connected(port: string)
    | ReadingRaw(packet: string)
    | Reading(parsed: Packet)
    | Error(reason: string)
    /** The call to `_tryNextSerialPort`. */
    | TryNextPort

  const InvalidCrc: string := "Invalid CRC"
  const InvalidReading: string := "Invalid reading"

  /** JavaScript truthiness of `serialPortUsed`: `false` and the empty string
      are falsy, every other port name is truthy. */
  predicate IsPinned(serialPortUsed: Option<string>) {
    serialPortUsed.Some? && serialPortUsed.value != ""
  }

  /** The result of handling one extracted frame. */
  datatype Dispatched = Dispatched(serialPortUsed: Option<string>, events: seq<Event>)

  /** The checksum gate: with checking off every frame is valid; with it on,
      the validator sees the frame with a literal `!` appended. */
  predicate CrcAccepted(env: Env, packet: string, expectedCrc: Option<int>) {
    !env.crcCheckRequired || env.checkCrc(packet + "!", expectedCrc)
  }

  /** The frame-handling part of the callback: checksum gate, port pinning and
      event emission for one extracted frame. */
  function Dispatch(env: Env, serialPortUsed: Option<string>, packet: string, expectedCrc: Option<int>)
    : (d: Dispatched)
    ensures !CrcAccepted(env, packet, expectedCrc) ==>
      d == Dispatched(serialPortUsed, [Error(InvalidCrc)])
    ensures CrcAccepted(env, packet, expectedCrc) ==>
      && 2 <= |d.events| <= 3
      && d.events[|d.events| - 2] == ReadingRaw(packet)
      && (d.events[|d.events| - 1] == Reading(env.parsePacket(packet))
          <==> env.parsePacket(packet).timestamp.Some?)
      && (d.events[|d.events| - 1] == Error(InvalidReading)
          <==> env.parsePacket(packet).timestamp.None?)
      && (|d.events| == 3 <==> !IsPinned(serialPortUsed))
    ensures forall i :: 0 <= i < |d.events| && d.events[i].ReadingRaw? ==>
      i == |d.events| - 2 && d.events[i].packet == packet
    ensures IsPinned(serialPortUsed) ==> d.serialPortUsed == serialPortUsed
    ensures d.serialPortUsed != serialPortUsed ==>
      && d.serialPortUsed == Some(env.port)
      && d.events[0] == Connected(env.port)
    ensures CrcAccepted(env, packet, expectedCrc) && !IsPinned(serialPortUsed) ==>
      d.events[0] == (if env.parsePacket(packet).timestamp.Some? then Connected(env.port) else TryNextPort)
    ensures CrcAccepted(env, packet, expectedCrc) && !IsPinned(serialPortUsed)
            && env.parsePacket(packet).timestamp.Some? ==>
      d.serialPortUsed == Some(env.port)
    ensures Connected(env.port) in d.events <==>
      && CrcAccepted(env, packet, expectedCrc)
      && !IsPinned(serialPortUsed)
      && env.parsePacket(packet).timestamp.Some?
  {
    if !CrcAccepted(env, packet, expectedCrc) then
      Dispatched(serialPortUsed, [Error(InvalidCrc)])
    else
      var parsedPacket := env.parsePacket(packet);
      var pin :=
        if IsPinned(serialPortUsed) then Dispatched(serialPortUsed, [])
        else if parsedPacket.timestamp.Some? then Dispatched(Some(env.port), [Connected(env.port)])
        else Dispatched(serialPortUsed, [TryNextPort]);
      var outcome := if parsedPacket.timestamp.Some? then Reading(parsedPacket) else Error(InvalidReading);
      Dispatched(pin.serialPortUsed, pin.events + [ReadingRaw(packet), outcome])
  }

  /** The session after a line and the events emitted while handling it. */
  datatype Outcome = Outcome(session: Session, events: seq<Event>)

  /** The text scanned for markers: the buffer with the line and CRLF appended. */
  function Appended(s: Session, line: string): (buf: string)
    ensures |buf| == |s.received| + |line| + 2
    ensures buf[..|s.received|] == s.received
  {
    s.received + line + CRLF
  }

  /** One run of the callback for the delivered `line`. */
  function Step(env: Env, s: Session, line: string): (r: Outcome)
    ensures IsSuffix(r.session.received, s.received + line + CRLF)
    ensures IsPinned(s.serialPortUsed) ==> r.session.serialPortUsed == s.serialPortUsed
    ensures r.session.serialPortUsed == s.serialPortUsed || r.session.serialPortUsed == Some(env.port)
    ensures |r.events| <= 3
  {
    var buf := Appended(s, line);
    var scan := Scan(env.startCharacter, env.stopCharacter, buf);
    match scan
    case Waiting => Outcome(Session(buf, s.serialPortUsed), [])
    case Discarded(_, rest) => Outcome(Session(rest, s.serialPortUsed), [])
    case Extracted(_, _, packet, trailer, rest) =>
      var d := Dispatch(env, s.serialPortUsed, packet, ParseIntHex(trailer));
      Outcome(Session(rest, d.serialPortUsed), d.events)
  }

  /** The callback run once per line, in delivery order; the events of all
      lines concatenated. */
  function Run(env: Env, s: Session, lines: seq<string>): Outcome
  {
    Fold((s': Session, line: string) => Step(env, s', line), s, lines)
  }

  function Fold(step: (Session, string) -> Outcome, s: Session, lines: seq<string>): Outcome
    decreases |lines|
  {
    if |lines| == 0 then Outcome(s, [])
    else
      var first := step(s, lines[0]);
      var later := Fold(step, first.session, lines[1..]);
      Outcome(later.session, first.events + later.events)
  }

  lemma {:induction false} FoldConcat(step: (Session, string) -> Outcome, s: Session, a: seq<string>, b: seq<string>)
    ensures var ra := Fold(step, s, a);
            var rb := Fold(step, ra.session, b);
            Fold(step, s, a + b) == Outcome(rb.session, ra.events + rb.events)
    decreases |a|
  {
    if |a| == 0 {
      assert a + b == b;
    } else {
      assert (a + b)[0] == a[0];
      assert (a + b)[1..] == a[1..] + b;
      FoldConcat(step, step(s, a[0]).session, a[1..], b);
    }
  }
}

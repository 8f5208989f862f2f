/** What the reader promises about one delivered line and about any sequence
    of delivered lines. */
module Properties {
  import opened Wrappers
  import opened JsString
  import opened JsParseInt
  import opened Reassembler
  import opened P1Reader

  /* ---------------------------------------------------------------------- */
  /* One line                                                               */
  /* ---------------------------------------------------------------------- */

  /** With no stale stop marker and no complete frame, the line is appended
      and nothing else happens: no buffered character is lost. */
  lemma StepRetains(env: Env, s: Session, line: string)
    requires !StaleStop(Appended(s, line), env.startCharacter, env.stopCharacter)
    requires !FrameReady(Appended(s, line), env.startCharacter, env.stopCharacter)
    ensures Step(env, s, line) == Outcome(Session(s.received + line + CRLF, s.serialPortUsed), [])
  {
    ScanDecision(env.startCharacter, env.stopCharacter, Appended(s, line));
  }

  /** A stop marker before every start marker: the buffer is cut just after
      the first stop marker, so it strictly shrinks, and nothing is emitted. */
  lemma StepDiscards(env: Env, s: Session, line: string, e: nat)
    requires StaleStop(Appended(s, line), env.startCharacter, env.stopCharacter)
    requires FirstAt(Appended(s, line), env.stopCharacter, e)
    ensures Step(env, s, line).session == Session(Appended(s, line)[e + 1..], s.serialPortUsed)
    ensures |Step(env, s, line).session.received| < |Appended(s, line)|
    ensures Step(env, s, line).events == []
  {
    var scan := Scan(env.startCharacter, env.stopCharacter, Appended(s, line));
    ScanDecision(env.startCharacter, env.stopCharacter, Appended(s, line));
    FirstAtUnique(Appended(s, line), env.stopCharacter, e, scan.stopAt);
  }

  /** A line whose scan extracts a frame hands that frame and its trailer
      value to the checksum gate and keeps what follows the trailer. */
  lemma StepExtracted(env: Env, s: Session, line: string)
    requires Scan(env.startCharacter, env.stopCharacter, Appended(s, line)).Extracted?
    ensures var scan := Scan(env.startCharacter, env.stopCharacter, Appended(s, line));
            var d := Dispatch(env, s.serialPortUsed, scan.frame, ParseIntHex(scan.trailer));
            Step(env, s, line) == Outcome(Session(scan.rest, d.serialPortUsed), d.events)
  {
  }

  /** A line whose scan extracts nothing emits nothing and keeps the pin. */
  lemma StepNotExtracted(env: Env, s: Session, line: string)
    requires !Scan(env.startCharacter, env.stopCharacter, Appended(s, line)).Extracted?
    ensures Step(env, s, line).events == []
    ensures Step(env, s, line).session.serialPortUsed == s.serialPortUsed
  {
  }

  /** A complete frame: the frame runs from the first start marker up to the
      first stop marker, the trailer is the four characters after that stop
      marker, the buffer keeps only what follows the trailer, and the frame and
      trailer value go to the checksum gate. */
  lemma StepExtracts(env: Env, s: Session, line: string, i: nat, e: nat)
    requires FrameReady(Appended(s, line), env.startCharacter, env.stopCharacter)
    requires FirstAt(Appended(s, line), env.startCharacter, i)
    requires FirstAt(Appended(s, line), env.stopCharacter, e)
    ensures i <= e && e + 5 <= |Appended(s, line)|
    ensures |Appended(s, line)[e + 5..]| < |Appended(s, line)|
    ensures var d := Dispatch(env, s.serialPortUsed, Appended(s, line)[i..e],
                              ParseIntHex(Appended(s, line)[e + 1..e + 5]));
            Step(env, s, line) == Outcome(Session(Appended(s, line)[e + 5..], d.serialPortUsed), d.events)
  {
    ScanExtractsAt(env.startCharacter, env.stopCharacter, Appended(s, line), i, e);
    StepExtracted(env, s, line);
  }

  /** With distinct markers, every frame reported raw begins with the start
      marker and holds no stop marker. */
  lemma StepFrameShape(env: Env, s: Session, line: string, packet: string)
    requires env.startCharacter != env.stopCharacter
    requires ReadingRaw(packet) in Step(env, s, line).events
    ensures |packet| > 0 && packet[0] == env.startCharacter
    ensures env.stopCharacter !in packet
  {
    var buf := Appended(s, line);
    var scan := Scan(env.startCharacter, env.stopCharacter, buf);
    if !scan.Extracted? {
      StepNotExtracted(env, s, line);
      assert false;
    }
    StepExtracted(env, s, line);
    var d := Dispatch(env, s.serialPortUsed, scan.frame, ParseIntHex(scan.trailer));
    assert packet == scan.frame by {
      var i :| 0 <= i < |d.events| && d.events[i] == ReadingRaw(packet);
    }
    ScanFrameShape(env.startCharacter, env.stopCharacter, buf);
  }

  /* ---------------------------------------------------------------------- */
  /* Event order                                                            */
  /* ---------------------------------------------------------------------- */

  /** The event a raw reading of `packet` is followed by: the decoded reading
      when the decoder finds a timestamp, an "Invalid reading" error otherwise. */
  function ReadingFor(env: Env, packet: string): Event {
    var parsed := env.parsePacket(packet);
    if parsed.timestamp.Some? then Reading(parsed) else Error(InvalidReading)
  }

  /** The per-frame order of the event stream, both ways: every raw reading
      is followed at once by the reading of that same frame (or "Invalid
      reading"); every reading and every "Invalid reading" comes right after
      the raw reading it decodes; `connected` is followed by a raw reading and
      a decoded reading, and the failover request by a raw reading and an
      "Invalid reading" error. */
  ghost predicate WellOrdered(env: Env, evs: seq<Event>) {
    && (forall i :: 0 <= i < |evs| && evs[i].ReadingRaw? ==>
          i + 1 < |evs| && evs[i + 1] == ReadingFor(env, evs[i].packet))
    && (forall i :: 0 <= i < |evs| && (evs[i].Reading? || evs[i] == Error(InvalidReading)) ==>
          0 < i && evs[i - 1].ReadingRaw? && evs[i] == ReadingFor(env, evs[i - 1].packet))
    && (forall i :: 0 <= i < |evs| && evs[i].Connected? ==>
          i + 2 < |evs| && evs[i + 1].ReadingRaw? && evs[i + 2].Reading?)
    && (forall i :: 0 <= i < |evs| && evs[i] == TryNextPort ==>
          i + 2 < |evs| && evs[i + 1].ReadingRaw? && evs[i + 2] == Error(InvalidReading))
  }

  lemma DispatchWellOrdered(env: Env, serialPortUsed: Option<string>, packet: string, crc: Option<int>)
    ensures WellOrdered(env, Dispatch(env, serialPortUsed, packet, crc).events)
  {
  }

  lemma StepWellOrdered(env: Env, s: Session, line: string)
    ensures WellOrdered(env, Step(env, s, line).events)
  {
    var scan := Scan(env.startCharacter, env.stopCharacter, Appended(s, line));
    if scan.Extracted? {
      DispatchWellOrdered(env, s.serialPortUsed, scan.frame, ParseIntHex(scan.trailer));
    }
  }

  lemma ConcatWellOrdered(env: Env, a: seq<Event>, b: seq<Event>)
    requires WellOrdered(env, a) && WellOrdered(env, b)
    ensures WellOrdered(env, a + b)
  {
    var ab := a + b;
    forall i | 0 <= i < |ab| && ab[i].ReadingRaw?
      ensures i + 1 < |ab| && ab[i + 1] == ReadingFor(env, ab[i].packet)
    {
      if i < |a| {
        assert a[i].ReadingRaw?;
      } else {
        assert b[i - |a|].ReadingRaw?;
      }
    }
    forall i | 0 <= i < |ab| && (ab[i].Reading? || ab[i] == Error(InvalidReading))
      ensures 0 < i && ab[i - 1].ReadingRaw? && ab[i] == ReadingFor(env, ab[i - 1].packet)
    {
      if i < |a| {
        assert a[i] == ab[i];
      } else {
        assert b[i - |a|] == ab[i];
      }
    }
    forall i | 0 <= i < |ab| && ab[i].Connected?
      ensures i + 2 < |ab| && ab[i + 1].ReadingRaw? && ab[i + 2].Reading?
    {
      if i < |a| {
        assert a[i].Connected?;
      } else {
        assert b[i - |a|].Connected?;
      }
    }
    forall i | 0 <= i < |ab| && ab[i] == TryNextPort
      ensures i + 2 < |ab| && ab[i + 1].ReadingRaw? && ab[i + 2] == Error(InvalidReading)
    {
      if i < |a| {
        assert a[i] == ab[i];
      } else {
        assert b[i - |a|] == ab[i];
      }
    }
  }

  /** Over any sequence of lines the event stream keeps the per-frame order. */
  lemma {:induction false} RunWellOrdered(env: Env, s: Session, lines: seq<string>)
    ensures WellOrdered(env, Run(env, s, lines).events)
    decreases |lines|
  {
    if |lines| > 0 {
      var first := Step(env, s, lines[0]);
      StepWellOrdered(env, s, lines[0]);
      RunWellOrdered(env, first.session, lines[1..]);
      ConcatWellOrdered(env, first.events, Run(env, first.session, lines[1..]).events);
    }
  }

  /* ---------------------------------------------------------------------- */
  /* Port pinning                                                           */
  /* ---------------------------------------------------------------------- */

  /** Once a port is pinned, no later line changes it. */
  lemma {:induction false} RunKeepsPin(env: Env, s: Session, lines: seq<string>)
    requires IsPinned(s.serialPortUsed)
    ensures Run(env, s, lines).session.serialPortUsed == s.serialPortUsed
    decreases |lines|
  {
    if |lines| > 0 {
      RunKeepsPin(env, Step(env, s, lines[0]).session, lines[1..]);
    }
  }

  /** The number of `connected` events in a stream. */
  function CountConnected(evs: seq<Event>): (n: nat)
    ensures n <= |evs|
    ensures n == 0 <==> forall i :: 0 <= i < |evs| ==> !evs[i].Connected?
    decreases |evs|
  {
    if |evs| == 0 then 0
    else (if evs[0].Connected? then 1 else 0) + CountConnected(evs[1..])
  }

  lemma {:induction false} CountConnectedConcat(a: seq<Event>, b: seq<Event>)
    ensures CountConnected(a + b) == CountConnected(a) + CountConnected(b)
    decreases |a|
  {
    if |a| == 0 {
      assert a + b == b;
    } else {
      assert (a + b)[0] == a[0];
      assert (a + b)[1..] == a[1..] + b;
      CountConnectedConcat(a[1..], b);
    }
  }

  /** Handling a frame emits `connected` exactly when it pins the port (for
      a port with a non-empty name). */
  lemma DispatchConnectedIffPinned(env: Env, serialPortUsed: Option<string>, packet: string, crc: Option<int>)
    requires env.port != ""
    ensures var d := Dispatch(env, serialPortUsed, packet, crc);
            CountConnected(d.events) == if d.serialPortUsed == serialPortUsed then 0 else 1
  {
    var d := Dispatch(env, serialPortUsed, packet, crc);
    var evs := d.events;
    if !CrcAccepted(env, packet, crc) {
      assert CountConnected(evs[1..]) == 0;
    } else {
      var n := |evs|;
      var tail := [evs[n - 2], evs[n - 1]];
      assert CountConnected(tail) == 0 by {
        assert CountConnected(tail[1..][1..]) == 0;
      }
      if n == 3 {
        assert evs[1..] == tail;
      } else {
        assert evs == tail;
      }
    }
  }

  /** A line emits `connected` exactly when it pins the port (for a port
      with a non-empty name). */
  lemma StepConnectedIffPinned(env: Env, s: Session, line: string)
    requires env.port != ""
    ensures CountConnected(Step(env, s, line).events)
      == if Step(env, s, line).session.serialPortUsed == s.serialPortUsed then 0 else 1
  {
    var scan := Scan(env.startCharacter, env.stopCharacter, Appended(s, line));
    if scan.Extracted? {
      DispatchConnectedIffPinned(env, s.serialPortUsed, scan.frame, ParseIntHex(scan.trailer));
    }
  }

  /** Over any sequence of lines, `connected` is emitted once if the port got
      pinned during the run and never otherwise; in particular at most once,
      and never when the session started pinned. */
  lemma {:induction false} RunConnectedOnce(env: Env, s: Session, lines: seq<string>)
    requires env.port != ""
    ensures var r := Run(env, s, lines);
      CountConnected(r.events) == if r.session.serialPortUsed == s.serialPortUsed then 0 else 1
    ensures IsPinned(s.serialPortUsed) ==> CountConnected(Run(env, s, lines).events) == 0
    decreases |lines|
  {
    if IsPinned(s.serialPortUsed) {
      RunKeepsPin(env, s, lines);
    }
    if |lines| > 0 {
      var first := Step(env, s, lines[0]);
      var later := Run(env, first.session, lines[1..]);
      StepConnectedIffPinned(env, s, lines[0]);
      RunConnectedOnce(env, first.session, lines[1..]);
      CountConnectedConcat(first.events, later.events);
      if first.session.serialPortUsed != s.serialPortUsed {
        assert IsPinned(first.session.serialPortUsed);
        RunKeepsPin(env, first.session, lines[1..]);
      }
    }
  }

  /* ---------------------------------------------------------------------- */
  /* Telegrams spread over several lines                                    */
  /* ---------------------------------------------------------------------- */

  /** The text the callback sees for a sequence of lines: each line followed
      by CRLF. */
  function Delivered(lines: seq<string>): string
    decreases |lines|
  {
    if |lines| == 0 then "" else lines[0] + CRLF + Delivered(lines[1..])
  }

  /** Running the lines `a` and then the lines `b` is running `a + b`. */
  lemma RunConcat(env: Env, s: Session, a: seq<string>, b: seq<string>)
    ensures var ra := Run(env, s, a);
            var rb := Run(env, ra.session, b);
            Run(env, s, a + b) == Outcome(rb.session, ra.events + rb.events)
  {
    FoldConcat((s': Session, line: string) => Step(env, s', line), s, a, b);
  }

  /** Over any sequence of lines the buffer only ever loses a prefix of what
      it held plus what was delivered: no character is reordered or invented. */
  lemma {:induction false} RunBufferSuffix(env: Env, s: Session, lines: seq<string>)
    ensures IsSuffix(Run(env, s, lines).session.received, s.received + Delivered(lines))
    decreases |lines|
  {
    if |lines| == 0 {
      assert s.received + Delivered(lines) == s.received;
    } else {
      var first := Step(env, s, lines[0]);
      var later := Run(env, first.session, lines[1..]);
      assert Run(env, s, lines).session == later.session;
      RunBufferSuffix(env, first.session, lines[1..]);
      SuffixChain(later.session.received, first.session.received, Delivered(lines[1..]),
                  s.received, lines[0]);
    }
  }

  lemma SuffixChain(final: string, mid: string, rest: string, received: string, line: string)
    requires IsSuffix(final, mid + rest) && IsSuffix(mid, received + line + CRLF)
    ensures IsSuffix(final, received + (line + CRLF + rest))
  {
    SuffixAppend(mid, received + line + CRLF, rest);
    SuffixTransitive(final, mid + rest, received + line + CRLF + rest);
    assert received + line + CRLF + rest == received + (line + CRLF + rest);
  }

  /** From the start-up state `connected` is emitted at most once, whatever
      lines arrive. */
  lemma ConnectedAtMostOnceFromStart(env: Env, lines: seq<string>)
    requires env.port != ""
    ensures CountConnected(Run(env, Initial, lines).events) <= 1
  {
    RunConnectedOnce(env, Initial, lines);
  }

  /** Running a non-empty sequence of lines is running the first line, then
      the rest from the session it left. */
  lemma RunCons(env: Env, s: Session, lines: seq<string>)
    requires |lines| > 0
    ensures var first := Step(env, s, lines[0]);
            var later := Run(env, first.session, lines[1..]);
            Run(env, s, lines) == Outcome(later.session, first.events + later.events)
  {
  }

  /** Lines that carry no stop marker only accumulate: the buffer grows by
      each line and its CRLF, and nothing is emitted. */
  lemma {:induction false} RunAccumulates(env: Env, s: Session, lines: seq<string>)
    requires env.stopCharacter !in CRLF
    requires env.stopCharacter !in s.received
    requires forall k :: 0 <= k < |lines| ==> env.stopCharacter !in lines[k]
    ensures Run(env, s, lines) == Outcome(Session(s.received + Delivered(lines), s.serialPortUsed), [])
    decreases |lines|
  {
    if |lines| == 0 {
      assert s.received + "" == s.received;
    } else {
      var buf := Appended(s, lines[0]);
      assert env.stopCharacter !in buf by {
        assert env.stopCharacter !in lines[0];
      }
      var first := Step(env, s, lines[0]);
      StepWaits(env, s, lines[0]);
      assert forall k :: 0 <= k < |lines[1..]| ==> env.stopCharacter !in lines[1..][k] by {
        forall k | 0 <= k < |lines[1..]| ensures env.stopCharacter !in lines[1..][k] {
          assert lines[1..][k] == lines[k + 1];
        }
      }
      RunAccumulates(env, first.session, lines[1..]);
      RunCons(env, s, lines);
      assert buf + Delivered(lines[1..]) == s.received + Delivered(lines);
    }
  }

  /** Without any stop marker in the buffer, a line is only appended. */
  lemma StepWaits(env: Env, s: Session, line: string)
    requires env.stopCharacter !in Appended(s, line)
    ensures Step(env, s, line) == Outcome(Session(Appended(s, line), s.serialPortUsed), [])
  {
    var buf := Appended(s, line);
    var r := Scan(env.startCharacter, env.stopCharacter, buf);
  }

  /** One telegram delivered over several lines: as long as no line before
      the last carries the stop marker, the line that completes the telegram
      cuts out exactly the telegram text (with the CRLFs of the lines it
      spans), its trailer and the text after it, and handles that frame
      as a single frame would be handled. */
  lemma TelegramAcrossLines(env: Env, s: Session, lines: seq<string>, last: string,
                            G: string, F: string, T: string, R: string)
    requires env.stopCharacter !in CRLF
    requires env.stopCharacter !in s.received
    requires forall k :: 0 <= k < |lines| ==> env.stopCharacter !in lines[k]
    requires s.received + Delivered(lines) + last + CRLF == G + F + [env.stopCharacter] + T + R
    requires env.startCharacter !in G && env.stopCharacter !in G
    requires |F| > 0 && F[0] == env.startCharacter && env.stopCharacter !in F
    requires |T| == 4
    ensures var d := Dispatch(env, s.serialPortUsed, F, ParseIntHex(T));
            Run(env, s, lines + [last]) == Outcome(Session(R, d.serialPortUsed), d.events)
  {
    RunConcat(env, s, lines, [last]);
    RunAccumulates(env, s, lines);
    var mid := Session(s.received + Delivered(lines), s.serialPortUsed);
    RunSingle(env, mid, last);
    assert Appended(mid, last) == G + F + [env.stopCharacter] + T + R;
    StepOnTelegram(env, mid, last, G, F, T, R);
  }

  lemma RunSingle(env: Env, s: Session, line: string)
    ensures Run(env, s, [line]) == Step(env, s, line)
  {
    var step := (s': Session, l: string) => Step(env, s', l);
    assert [line][1..] == [];
    var first := step(s, line);
    assert Fold(step, first.session, []) == Outcome(first.session, []);
    assert first.events + [] == first.events;
    assert Run(env, s, [line]) == Outcome(first.session, first.events);
  }

  /** A line that completes a telegram hands exactly that telegram on. */
  lemma StepOnTelegram(env: Env, s: Session, line: string, G: string, F: string, T: string, R: string)
    requires Appended(s, line) == G + F + [env.stopCharacter] + T + R
    requires env.startCharacter !in G && env.stopCharacter !in G
    requires |F| > 0 && F[0] == env.startCharacter && env.stopCharacter !in F
    requires |T| == 4
    ensures var d := Dispatch(env, s.serialPortUsed, F, ParseIntHex(T));
            Step(env, s, line) == Outcome(Session(R, d.serialPortUsed), d.events)
  {
    FrameRoundTrip(env.startCharacter, env.stopCharacter, G, F, T, R);
    StepExtracted(env, s, line);
  }

  /** The meter's usual format: a four-hex-digit trailer reaches the checksum
      validator as its unsigned 16-bit value. */
  lemma TelegramAcrossLinesHex(env: Env, s: Session, lines: seq<string>, last: string,
                               G: string, F: string, T: string, R: string)
    requires env.stopCharacter !in CRLF
    requires env.stopCharacter !in s.received
    requires forall k :: 0 <= k < |lines| ==> env.stopCharacter !in lines[k]
    requires s.received + Delivered(lines) + last + CRLF == G + F + [env.stopCharacter] + T + R
    requires env.startCharacter !in G && env.stopCharacter !in G
    requires |F| > 0 && F[0] == env.startCharacter && env.stopCharacter !in F
    requires |T| == 4 && AllHex(T)
    ensures HexValue(T) < 0x1_0000
    ensures var d := Dispatch(env, s.serialPortUsed, F, Some(HexValue(T)));
            Run(env, s, lines + [last]) == Outcome(Session(R, d.serialPortUsed), d.events)
  {
    TelegramAcrossLines(env, s, lines, last, G, F, T, R);
    Trailer16Bit(T);
  }
}

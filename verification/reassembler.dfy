/** The buffer scan the reader runs once per delivered line: find the first
    start and stop markers, drop stale data ending in a stop marker, or cut out
    one complete frame with its four-character checksum trailer. */
module Reassembler {
  import opened JsString

  /** What one scan of the receive buffer decided. */
  datatype ScanResult =
    /** Nothing to do yet: the whole buffer is kept. */
    | Waiting
    /** The first stop marker precedes the first start marker: everything
        through that stop marker is dropped. */
    | Discarded(stopAt: nat, rest: string)
    /** A frame `frame` and its trailer were cut out; `rest` is kept. */
    | Extracted(startAt: nat, stopAt: nat, frame: string, trailer: string, rest: string)

  /** Some stop marker comes before every start marker, and a start marker
      exists: the data up to the first stop marker belongs to no telegram. */
  ghost predicate StaleStop(buf: string, start: char, stop: char) {
    && start in buf
    && forall i :: 0 <= i < |buf| && buf[i] == start ==> stop in buf[..i]
  }

  /** A start marker exists, no stale stop marker precedes it, and some stop
      marker is followed by at least four more characters. */
  ghost predicate FrameReady(buf: string, start: char, stop: char) {
    && start in buf
    && !StaleStop(buf, start, stop)
    && |buf| > 4
    && stop in buf[..|buf| - 4]
  }

  /** One scan of the buffer after the incoming line was appended. */
  function Scan(start: char, stop: char, buf: string): (r: ScanResult)
    ensures r.Discarded? ==>
      && FirstAt(buf, stop, r.stopAt)
      && r.rest == buf[r.stopAt + 1..]
    ensures r.Extracted? ==>
      && FirstAt(buf, start, r.startAt)
      && FirstAt(buf, stop, r.stopAt)
      && r.startAt <= r.stopAt
      && r.stopAt + 5 <= |buf|
      && r.frame == buf[r.startAt..r.stopAt]
      && r.trailer == buf[r.stopAt + 1..r.stopAt + 5]
      && r.rest == buf[r.stopAt + 5..]
  {
    var s := IndexOf(buf, start);
    var e := IndexOf(buf, stop);
    if e >= 0 && e < s then
      Discarded(e, buf[e + 1..])
    else if s >= 0 && e >= 0 && |buf| > e + 4 then
      Extracted(s, e, buf[s..e], buf[e + 1..e + 5], buf[e + 5..])
    else
      Waiting
  }

  /** The scan discards exactly when a stale stop marker is present, extracts
      exactly when a frame is ready, and otherwise waits. */
  lemma ScanDecision(start: char, stop: char, buf: string)
    ensures Scan(start, stop, buf).Discarded? <==> StaleStop(buf, start, stop)
    ensures Scan(start, stop, buf).Extracted? <==> FrameReady(buf, start, stop)
    ensures Scan(start, stop, buf).Waiting? <==>
      !StaleStop(buf, start, stop) && !FrameReady(buf, start, stop)
  {
    var s := IndexOf(buf, start);
    var e := IndexOf(buf, stop);
    StaleStopIff(buf, start, stop, s, e);
    FrameReadyIff(buf, start, stop, s, e);
  }

  /** main.js's discard test (line 84), in terms of `indexOf` results, is
      exactly the stale-stop condition. */
  lemma StaleStopIff(buf: string, start: char, stop: char, s: int, e: int)
    requires s == IndexOf(buf, start) && e == IndexOf(buf, stop)
    ensures (e >= 0 && e < s) <==> StaleStop(buf, start, stop)
  {
    if e >= 0 && e < s {
      forall i | 0 <= i < |buf| && buf[i] == start
        ensures stop in buf[..i]
      {
        assert buf[..i][e] == stop;
      }
    }
    if StaleStop(buf, start, stop) {
      assert stop in buf[..s];
      assert stop in buf by { assert buf[..s] <= buf; }
    }
  }

  /** main.js's completion test (lines 91-92), once no discard happened, is
      exactly the frame-ready condition. */
  lemma FrameReadyIff(buf: string, start: char, stop: char, s: int, e: int)
    requires s == IndexOf(buf, start) && e == IndexOf(buf, stop)
    ensures (!(e >= 0 && e < s) && s >= 0 && e >= 0 && |buf| > e + 4)
      <==> FrameReady(buf, start, stop)
  {
    StaleStopIff(buf, start, stop, s, e);
    if e >= 0 && |buf| > e + 4 {
      assert buf[..|buf| - 4][e] == stop;
    }
    if |buf| > 4 && stop in buf[..|buf| - 4] {
      var k :| 0 <= k < |buf| - 4 && buf[..|buf| - 4][k] == stop;
      assert buf[k] == stop;
    }
  }

  /** A telegram `F` (starting with the start marker, free of stop markers),
      preceded by noise `G` holding neither marker, followed by the stop marker,
      a four-character trailer `T` and any text `R`, is cut out exactly: the
      frame is `F`, the trailer is `T` and `R` stays buffered. */
  lemma FrameRoundTrip(start: char, stop: char, G: string, F: string, T: string, R: string)
    requires start !in G && stop !in G
    requires |F| > 0 && F[0] == start && stop !in F
    requires |T| == 4
    ensures Scan(start, stop, G + F + [stop] + T + R)
      == Extracted(|G|, |G| + |F|, F, T, R)
  {
    var buf := G + F + [stop] + T + R;
    var s := |G|;
    var e := |G| + |F|;
    assert buf[..s] == G;
    assert buf[..e] == G + F;
    assert FirstAt(buf, start, s);
    assert FirstAt(buf, stop, e);
    FirstAtUnique(buf, start, s, IndexOf(buf, start));
    FirstAtUnique(buf, stop, e, IndexOf(buf, stop));
    assert buf[s..e] == F;
    assert buf[e + 1..e + 5] == T;
    assert buf[e + 5..] == R;
  }

  /** A ready frame is cut at the first start and first stop markers. */
  lemma ScanExtractsAt(start: char, stop: char, buf: string, i: nat, e: nat)
    requires FrameReady(buf, start, stop)
    requires FirstAt(buf, start, i) && FirstAt(buf, stop, e)
    ensures i <= e && e + 5 <= |buf|
    ensures Scan(start, stop, buf) == Extracted(i, e, buf[i..e], buf[e + 1..e + 5], buf[e + 5..])
  {
    var r := Scan(start, stop, buf);
    ScanDecision(start, stop, buf);
    FirstAtUnique(buf, start, i, r.startAt);
    FirstAtUnique(buf, stop, e, r.stopAt);
  }

  /** With distinct markers an extracted frame begins with the start marker
      and holds no stop marker. */
  lemma ScanFrameShape(start: char, stop: char, buf: string)
    requires start != stop
    requires Scan(start, stop, buf).Extracted?
    ensures var f := Scan(start, stop, buf).frame;
            |f| > 0 && f[0] == start && stop !in f
  {
    var r := Scan(start, stop, buf);
    assert r.startAt < r.stopAt;
    assert r.frame == buf[..r.stopAt][r.startAt..];
  }
}

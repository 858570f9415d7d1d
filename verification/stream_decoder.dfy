/** The host-side reassembly loop of `defmt-print` (print/src/main.rs): bytes
    arrive in chunks of at most `ReadBufferSize`, are appended to a buffer,
    cut into zero-terminated frames, decoded and forwarded with their source
    location; the bytes after the last complete frame are kept for the next
    read.

    The rzCOBS decoder and the table's frame decoder are given functions: the
    model says nothing about their internals, only how the loop reacts to
    each of their outcomes. */
module StreamDecoder {
  import opened Common
  import opened DwarfLocations

  const ReadBufferSize := 1024
  const U32Modulus := 0x1_0000_0000

  /** A decoded log frame; the loop only looks at its format-string index. */
  datatype Frame = Frame(index: nat, args: seq<byte>)

  /** The outcomes of `Table::decode` the loop distinguishes. */
  datatype TableDecode = Decoded(frame: Frame, consumed: nat) | UnexpectedEof | Malformed

  /** `rzcobs::decode` (`None` for any error) and `Table::decode`. */
  datatype Decoders = Decoders(rzcobs: seq<byte> -> Option<seq<byte>>, table: seq<byte> -> TableDecode)

  /** What the loop knows besides the bytes: the location map if it passed
      the completeness check, and the current directory. */
  datatype Env = Env(locs: Option<map<nat, Location>>, cwd: Path)

  /** One forwarded log line: the frame with its file, line and module. */
  datatype Event = Event(frame: Frame, file: Option<Path>, line: Option<nat>, modulePath: Option<string>)

  /** Why scanning stopped: no complete frame is left; a frame needs more
      bytes (`UnexpectedEof`); a frame is malformed, which ends the program
      with an error; or a frame's index has no location, which panics on
      the map lookup. */
  datatype Stop = Drained | AwaitMore | Desynchronized | MissingLocation

  /** The events of one scan, why it stopped, and the window it stopped at. */
  datatype ScanResult = ScanResult(events: seq<Event>, stop: Stop, rest: seq<byte>)

  /** What one complete frame (its bytes before the zero) leads to. */
  datatype FrameOutcome = Skip | Emit(event: Event) | Halt(stop: Stop)

  predicate NoZero(s: seq<byte>) {
    forall i :: 0 <= i < |s| ==> s[i] != 0
  }

  /** `data.iter().position(|x| *x == 0)`. */
  function FirstZero(s: seq<byte>): (r: Option<nat>)
    ensures r.None? <==> NoZero(s)
    ensures r.Some? ==> r.value < |s| && s[r.value] == 0 && NoZero(s[..r.value])
  {
    if |s| == 0 then None
    else if s[0] == 0 then Some(0)
    else match FirstZero(s[1..])
      case None => None
      case Some(i) =>
        assert s[..i + 1] == [s[0]] + s[1..][..i];
        Some(i + 1)
  }

  /** The completeness check made before the loop: the location map is used
      only when every format-string index of the table has an entry; one
      missing index drops location data for the whole run. */
  function LocationsIfComplete(indices: seq<nat>, locs: map<nat, Location>): (r: Option<map<nat, Location>>)
    ensures r.Some? ==> r.value == locs
    ensures r.Some? <==> forall k :: 0 <= k < |indices| ==> indices[k] in locs
  {
    AllPresentSound(indices, locs);
    if AllPresent(indices, locs) then Some(locs) else None
  }

  /** `indices().all(..)`: the indices are looked up in order, and the
      first one missing from `locs` ends the check. */
  predicate AllPresent(indices: seq<nat>, locs: map<nat, Location>)
    decreases |indices|
  {
    |indices| == 0 || (indices[0] in locs && AllPresent(indices[1..], locs))
  }

  /** The short-circuiting check accepts exactly when every index is there. */
  lemma {:induction false} AllPresentSound(indices: seq<nat>, locs: map<nat, Location>)
    ensures AllPresent(indices, locs) <==> forall k :: 0 <= k < |indices| ==> indices[k] in locs
    decreases |indices|
  {
    if |indices| > 0 {
      AllPresentSound(indices[1..], locs);
      assert forall k :: 1 <= k < |indices| ==> indices[k] == indices[1..][k - 1];
    }
  }

  /** `loc.file.strip_prefix(&current_dir)`, or the full path when it is not
      under the current directory. */
  function Relative(file: Path, cwd: Path): (r: Path)
    ensures Under(file, cwd) ==> !r.absolute && PathPush(cwd, r) == file
    ensures !Under(file, cwd) ==> r == file
  {
    match StripPrefix(file, cwd)
    case Some(rel) => StripThenPush(file, cwd); rel
    case None => file
  }

  /** The event for a decoded frame; `None` when the location map is there
      but has no entry for the frame's index (the `locs[&index]` panic). */
  function Annotate(frame: Frame, env: Env): (r: Option<Event>)
    ensures r.Some? ==> r.value.frame == frame
    ensures r.None? <==> env.locs.Some? && frame.index !in env.locs.value
  {
    match env.locs
    case None => Some(Event(frame, None, None, None))
    case Some(locs) =>
      if frame.index in locs then
        var loc := locs[frame.index];
        Some(Event(frame, Some(Relative(loc.file, env.cwd)), Some(loc.line % U32Modulus), Some(loc.modulePath)))
      else None
  }

  /** One complete frame: empty frames are skipped without decoding, frames
      rzCOBS rejects are skipped after logging, and the table decoder's
      result decides the rest. */
  function DecodeFrame(body: seq<byte>, dec: Decoders, env: Env): FrameOutcome {
    if |body| == 0 then Skip
    else match dec.rzcobs(body)
      case None => Skip
      case Some(msg) =>
        match dec.table(msg)
        case Decoded(frame, _) =>
          (match Annotate(frame, env)
           case Some(ev) => Emit(ev)
           case None => Halt(MissingLocation))
        case UnexpectedEof => Halt(AwaitMore)
        case Malformed => Halt(Desynchronized)
  }

  /** Events `evs` followed by those of `r`. */
  function Prepend(evs: seq<Event>, r: ScanResult): ScanResult {
    r.(events := evs + r.events)
  }

  /** The inner `while let` loop over the window `data`. */
  function Scan(data: seq<byte>, dec: Decoders, env: Env): ScanResult
    decreases |data|
  {
    match FirstZero(data)
    case None => ScanResult([], Drained, data)
    case Some(end) =>
      match DecodeFrame(data[..end], dec, env)
      case Skip => Scan(data[end + 1..], dec, env)
      case Emit(ev) => Prepend([ev], Scan(data[end + 1..], dec, env))
      case Halt(stop) => ScanResult([], stop, data)
  }

  /** What the scan leaves over: a suffix of the window, with no zero byte
      when it drained, and otherwise starting with a non-empty frame that
      is terminated by a zero. */
  lemma {:induction false} ScanShape(data: seq<byte>, dec: Decoders, env: Env)
    ensures EndsWith(data, Scan(data, dec, env).rest)
    ensures Scan(data, dec, env).stop == Drained ==> NoZero(Scan(data, dec, env).rest)
    ensures Scan(data, dec, env).stop != Drained ==>
      FirstZero(Scan(data, dec, env).rest).Some? && FirstZero(Scan(data, dec, env).rest).value > 0
    decreases |data|
  {
    match FirstZero(data)
    case None =>
    case Some(end) =>
      var o := DecodeFrame(data[..end], dec, env);
      if !o.Halt? {
        ScanPastFrame(data, end, dec, env);
        ScanShape(data[end + 1..], dec, env);
        SuffixOfTail(data, end + 1, Scan(data[end + 1..], dec, env).rest);
      }
  }

  lemma SuffixOfTail(data: seq<byte>, k: nat, rest: seq<byte>)
    requires k <= |data| && EndsWith(data[k..], rest)
    ensures EndsWith(data, rest)
  {
    assert data[|data| - |rest|..] == data[k..][|data[k..]| - |rest|..];
  }

  /** One frame of the scan, unfolded. */
  lemma ScanFrame(data: seq<byte>, end: nat, dec: Decoders, env: Env)
    requires FirstZero(data) == Some(end)
    ensures DecodeFrame(data[..end], dec, env).Halt? ==>
      Scan(data, dec, env) == ScanResult([], DecodeFrame(data[..end], dec, env).stop, data)
    ensures DecodeFrame(data[..end], dec, env).Skip? ==> Scan(data, dec, env) == Scan(data[end + 1..], dec, env)
    ensures DecodeFrame(data[..end], dec, env).Emit? ==>
      Scan(data, dec, env) == Prepend([DecodeFrame(data[..end], dec, env).event], Scan(data[end + 1..], dec, env))
  {
  }

  /** The events a non-halting frame contributes. */
  function Emitted(o: FrameOutcome): seq<Event> {
    if o.Emit? then [o.event] else []
  }

  /** Past one frame that does not stop the scan. */
  lemma ScanAdvance(buf: seq<byte>, start: nat, end: nat, next: nat, dec: Decoders, env: Env)
    requires start <= |buf| && FirstZero(buf[start..]) == Some(end) && next == start + end + 1
    requires !DecodeFrame(buf[start..][..end], dec, env).Halt?
    ensures next <= |buf|
    ensures Scan(buf[start..], dec, env) ==
      Prepend(Emitted(DecodeFrame(buf[start..][..end], dec, env)), Scan(buf[next..], dec, env))
  {
    var data := buf[start..];
    TailOfWindow(buf, start, end + 1, next);
    ScanPastFrame(data, end, dec, env);
  }

  /** Past one frame that does not stop the scan, within one window. */
  lemma ScanPastFrame(data: seq<byte>, end: nat, dec: Decoders, env: Env)
    requires FirstZero(data) == Some(end) && !DecodeFrame(data[..end], dec, env).Halt?
    ensures Scan(data, dec, env) == Prepend(Emitted(DecodeFrame(data[..end], dec, env)), Scan(data[end + 1..], dec, env))
  {
    ScanFrame(data, end, dec, env);
    PrependTwice([], [], Scan(data[end + 1..], dec, env));
  }

  lemma TailOfWindow(buf: seq<byte>, start: nat, k: nat, next: nat)
    requires start + k <= |buf| && next == start + k
    ensures buf[start..][k..] == buf[next..]
  {
  }

  /** Where the scan stops at once: no complete frame, or a halting one. */
  lemma ScanHalts(buf: seq<byte>, start: nat, dec: Decoders, env: Env)
    requires start <= |buf|
    ensures FirstZero(buf[start..]).None? ==> Scan(buf[start..], dec, env) == ScanResult([], Drained, buf[start..])
    ensures FirstZero(buf[start..]).Some? && DecodeFrame(buf[start..][..FirstZero(buf[start..]).value], dec, env).Halt? ==>
      Scan(buf[start..], dec, env) ==
        ScanResult([], DecodeFrame(buf[start..][..FirstZero(buf[start..]).value], dec, env).stop, buf[start..])
  {
  }

  lemma ScanEmpty(data: seq<byte>, dec: Decoders, env: Env)
    requires |data| == 0
    ensures Scan(data, dec, env) == ScanResult([], Drained, data)
  {
  }

  lemma PrependTwice(a: seq<Event>, b: seq<Event>, r: ScanResult)
    ensures Prepend(a, Prepend(b, r)) == Prepend(a + b, r)
    ensures Prepend([], r) == r
  {
    assert a + (b + r.events) == (a + b) + r.events;
    assert [] + r.events == r.events;
  }

  /** `frames.rotate_right(k)`. */
  function RotateRight(s: seq<byte>, k: nat): seq<byte>
    requires k <= |s|
  {
    s[|s| - k..] + s[..|s| - k]
  }

  /** The clear-or-rotate-and-truncate step: keeps the last `k` bytes, in
      order. */
  function RetainTail(s: seq<byte>, k: nat): (r: seq<byte>)
    requires k <= |s|
    ensures r == s[|s| - k..]
  {
    if k == 0 then [] else RotateRight(s, k)[..k]
  }

  /** One turn of the inner loop over the window `buf[start..]`, with the
      source's guard `frames.len() > next_start` on the whole buffer: the
      events of the first frame, and either where the next window starts or
      why scanning stops. */
  method NextFrame(buf: seq<byte>, start: nat, dec: Decoders, env: Env)
    returns (emitted: seq<Event>, halted: bool, stop: Stop, next: nat)
    requires start <= |buf|
    ensures start <= next <= |buf|
    ensures halted ==> Scan(buf[start..], dec, env) == ScanResult(emitted, stop, buf[next..])
    ensures !halted ==> next > start && Scan(buf[start..], dec, env) == Prepend(emitted, Scan(buf[next..], dec, env))
  {
    var data := buf[start..];
    var found := FirstZero(data);
    if found.None? {
      ScanHalts(buf, start, dec, env);
      return [], true, Drained, start;
    }
    var end := found.value;
    var outcome := DecodeFrame(data[..end], dec, env);
    if outcome.Halt? {
      ScanHalts(buf, start, dec, env);
      return [], true, outcome.stop, start;
    }
    emitted := Emitted(outcome);
    next := start + end + 1;
    ScanAdvance(buf, start, end, next, dec, env);
    var nextStart := end + 1;
    if |buf| > nextStart {
      return emitted, false, Drained, next;
    } else {
      ScanEmpty(buf[|buf|..], dec, env);
      return emitted, true, Drained, |buf|;
    }
  }

  /** One turn of the outer loop: append the `chunk` just read, scan the
      buffer frame by frame, then keep the leftover window. The result is
      the functional scan of the whole buffer. */
  method Cycle(frames: seq<byte>, chunk: seq<byte>, dec: Decoders, env: Env)
    returns (events: seq<Event>, stop: Stop, next: seq<byte>)
    requires |chunk| <= ReadBufferSize
    ensures events == Scan(frames + chunk, dec, env).events
    ensures stop == Scan(frames + chunk, dec, env).stop
    ensures next == Scan(frames + chunk, dec, env).rest
  {
    var buf := frames + chunk;
    var start := 0;
    events := [];
    stop := Drained;
    var scanning := true;
    assert buf[0..] == buf;
    PrependTwice([], [], Scan(buf, dec, env));
    while scanning
      invariant 0 <= start <= |buf|
      invariant scanning ==> Scan(buf, dec, env) == Prepend(events, Scan(buf[start..], dec, env))
      invariant !scanning ==> Scan(buf, dec, env) == ScanResult(events, stop, buf[start..])
      decreases |buf| - start, scanning
    {
      var emitted, halted, why, nextStart := NextFrame(buf, start, dec, env);
      if halted {
        PrependTwice(events, emitted, Scan(buf[nextStart..], dec, env));
        stop := why;
        scanning := false;
      } else {
        PrependTwice(events, emitted, Scan(buf[nextStart..], dec, env));
      }
      events := events + emitted;
      start := nextStart;
    }
    next := RetainTail(buf, |buf| - start);
  }
}

/** What the reassembly loop promises: a frame-by-frame reading of the scan,
    independence from how the input is cut into reads (nothing is lost or
    repeated across cycles), the exact leftover, and the location data
    attached to each event. */
module StreamDecoderProofs {
  import opened Common
  import opened DwarfLocations
  import opened StreamDecoder

  /** The first zero of `f + [0] + w` is the one after `f`. */
  lemma FirstZeroAfter(f: seq<byte>, w: seq<byte>)
    requires NoZero(f)
    ensures FirstZero(f + [0] + w) == Some(|f|)
    ensures (f + [0] + w)[..|f|] == f && (f + [0] + w)[|f| + 1..] == w
  {
    var s := f + [0] + w;
    assert s[|f|] == 0;
    assert s[..|f|] == f;
    assert s[|f| + 1..] == w;
  }

  /** Cutting a window at its first zero, with more bytes appended. */
  lemma SplitAtZero(s: seq<byte>, k: nat, more: seq<byte>)
    requires FirstZero(s) == Some(k)
    ensures NoZero(s[..k])
    ensures s + more == s[..k] + [0] + (s[k + 1..] + more)
  {
    assert s == s[..k] + [s[k]] + s[k + 1..];
  }

  /** A halting frame halts whatever follows it. */
  lemma HaltingFrame(f: seq<byte>, w: seq<byte>, dec: Decoders, env: Env)
    requires NoZero(f) && DecodeFrame(f, dec, env).Halt?
    ensures Scan(f + [0] + w, dec, env) == ScanResult([], DecodeFrame(f, dec, env).stop, f + [0] + w)
  {
    FirstZeroAfter(f, w);
  }

  /** The scan, read frame by frame: a window without a zero byte yields
      nothing and is kept whole; otherwise the first frame is skipped
      (empty, or rejected by rzCOBS), emitted before the rest, or stops the
      scan with the window kept from the frame's first byte. */
  lemma ScanByFrames(f: seq<byte>, w: seq<byte>, dec: Decoders, env: Env)
    requires NoZero(f)
    ensures NoZero(w) ==> Scan(w, dec, env) == ScanResult([], Drained, w)
    ensures DecodeFrame(f, dec, env).Skip? ==> Scan(f + [0] + w, dec, env) == Scan(w, dec, env)
    ensures DecodeFrame(f, dec, env).Emit? ==>
      Scan(f + [0] + w, dec, env) == Prepend([DecodeFrame(f, dec, env).event], Scan(w, dec, env))
    ensures DecodeFrame(f, dec, env).Halt? ==>
      Scan(f + [0] + w, dec, env) == ScanResult([], DecodeFrame(f, dec, env).stop, f + [0] + w)
  {
    FirstZeroAfter(f, w);
  }

  /** The cases of `DecodeFrame`, one by one. */
  lemma FrameCases(f: seq<byte>, dec: Decoders, env: Env)
    ensures |f| == 0 ==> DecodeFrame(f, dec, env) == Skip
    ensures |f| > 0 && dec.rzcobs(f).None? ==> DecodeFrame(f, dec, env) == Skip
    ensures |f| > 0 && dec.rzcobs(f).Some? && dec.table(dec.rzcobs(f).value).UnexpectedEof? ==>
      DecodeFrame(f, dec, env) == Halt(AwaitMore)
    ensures |f| > 0 && dec.rzcobs(f).Some? && dec.table(dec.rzcobs(f).value).Malformed? ==>
      DecodeFrame(f, dec, env) == Halt(Desynchronized)
    ensures |f| > 0 && dec.rzcobs(f).Some? && dec.table(dec.rzcobs(f).value).Decoded? ==>
      var frame := dec.table(dec.rzcobs(f).value).frame;
      DecodeFrame(f, dec, env) == (if Annotate(frame, env).Some? then Emit(Annotate(frame, env).value) else Halt(MissingLocation))
  {
  }

  /** A scan that stopped early stopped at a frame that halts with that
      reason. */
  lemma {:induction false} ScanStopFrame(data: seq<byte>, dec: Decoders, env: Env)
    ensures var r := Scan(data, dec, env);
      r.stop != Drained ==>
        && FirstZero(r.rest).Some?
        && DecodeFrame(r.rest[..FirstZero(r.rest).value], dec, env) == Halt(r.stop)
    decreases |data|
  {
    match FirstZero(data)
    case None =>
    case Some(end) =>
      match DecodeFrame(data[..end], dec, env)
      case Skip => ScanStopFrame(data[end + 1..], dec, env);
      case Emit(ev) => ScanStopFrame(data[end + 1..], dec, env);
      case Halt(stop) =>
  }

  /** Once stopped, more bytes do not help: the same frame halts again. */
  lemma StoppedStaysStopped(data: seq<byte>, more: seq<byte>, dec: Decoders, env: Env)
    requires Scan(data, dec, env).stop != Drained
    ensures var r := Scan(data, dec, env);
      Scan(r.rest + more, dec, env) == ScanResult([], r.stop, r.rest + more)
  {
    var r := Scan(data, dec, env);
    ScanStopFrame(data, dec, env);
    var k := FirstZero(r.rest).value;
    SplitAtZero(r.rest, k, more);
    HaltingFrame(r.rest[..k], r.rest[k + 1..] + more, dec, env);
  }

  /** Splitting the input anywhere changes nothing: scanning `a + b` gives
      the events of `a`, then those of scanning what `a` left over followed
      by `b`. */
  lemma {:induction false} ScanAppend(a: seq<byte>, b: seq<byte>, dec: Decoders, env: Env)
    ensures var r := Scan(a, dec, env);
      Scan(a + b, dec, env) == Prepend(r.events, Scan(r.rest + b, dec, env))
    decreases |a|
  {
    if FirstZero(a).None? {
      ScanByFrames([], a, dec, env);
      PrependTwice([], [], Scan(a + b, dec, env));
    } else {
      var end := FirstZero(a).value;
      var f := a[..end];
      var a1 := a[end + 1..];
      assert a == f + [0] + a1 by {
        SplitAtZero(a, end, []);
        assert a1 + [] == a1;
      }
      assert a + b == f + [0] + a1 + b;
      ScanAppend(a1, b, dec, env);
      AppendFrame(f, a1, b, dec, env);
    }
  }

  /** The inductive step of `ScanAppend`, for a first frame `f`. */
  lemma AppendFrame(f: seq<byte>, a1: seq<byte>, b: seq<byte>, dec: Decoders, env: Env)
    requires NoZero(f)
    requires var r1 := Scan(a1, dec, env);
      Scan(a1 + b, dec, env) == Prepend(r1.events, Scan(r1.rest + b, dec, env))
    ensures var r := Scan(f + [0] + a1, dec, env);
      Scan(f + [0] + a1 + b, dec, env) == Prepend(r.events, Scan(r.rest + b, dec, env))
  {
    var a := f + [0] + a1;
    assert a + b == f + [0] + (a1 + b);
    ScanByFrames(f, a1 + b, dec, env);
    ScanByFrames(f, a1, dec, env);
    var o := DecodeFrame(f, dec, env);
    var r1 := Scan(a1, dec, env);
    if o.Halt? {
      PrependTwice([], [], Scan(a + b, dec, env));
    } else if o.Skip? {
    } else {
      PrependTwice([o.event], r1.events, Scan(r1.rest + b, dec, env));
    }
  }

  /** The outer loop over successive reads: each cycle scans the leftover
      followed by the new chunk; a malformed frame or a missing location
      ends the program. */
  function Run(leftover: seq<byte>, chunks: seq<seq<byte>>, dec: Decoders, env: Env): ScanResult
    decreases |chunks|
  {
    if |chunks| == 0 then ScanResult([], Drained, leftover)
    else
      var r := Scan(leftover + chunks[0], dec, env);
      if Fatal(r.stop) then r
      else Prepend(r.events, Run(r.rest, chunks[1..], dec, env))
  }

  predicate Fatal(stop: Stop) {
    stop == Desynchronized || stop == MissingLocation
  }

  /** A buffer as a cycle leaves it: no complete frame at all, or a first
      frame still waiting for more bytes. */
  predicate Settled(buf: seq<byte>, dec: Decoders, env: Env) {
    NoZero(buf) || Scan(buf, dec, env) == ScanResult([], AwaitMore, buf)
  }

  /** Every cycle that does not end the program leaves a settled buffer. */
  lemma CycleSettles(data: seq<byte>, dec: Decoders, env: Env)
    requires !Fatal(Scan(data, dec, env).stop)
    ensures Settled(Scan(data, dec, env).rest, dec, env)
  {
    var r := Scan(data, dec, env);
    if r.stop == AwaitMore {
      StoppedStaysStopped(data, [], dec, env);
      assert r.rest + [] == r.rest;
    } else {
      ScanShape(data, dec, env);
    }
  }

  /** A settled buffer yields nothing and does not end the program. */
  lemma SettledQuiet(buf: seq<byte>, dec: Decoders, env: Env)
    requires Settled(buf, dec, env)
    ensures Scan(buf, dec, env).events == [] && !Fatal(Scan(buf, dec, env).stop)
  {
    if NoZero(buf) {
      ScanByFrames([], buf, dec, env);
    }
  }

  lemma ConcatCons(leftover: seq<byte>, chunks: seq<seq<byte>>)
    requires |chunks| > 0
    ensures leftover + Concat(chunks) == (leftover + chunks[0]) + Concat(chunks[1..])
  {
  }

  /** A cycle that ends the program: whatever is read later, the one scan
      ends the same way with the same events. */
  lemma FatalCycle(a: seq<byte>, b: seq<byte>, dec: Decoders, env: Env)
    requires Fatal(Scan(a, dec, env).stop)
    ensures Scan(a + b, dec, env).events == Scan(a, dec, env).events
    ensures Scan(a + b, dec, env).stop == Scan(a, dec, env).stop
  {
    var r := Scan(a, dec, env);
    ScanAppend(a, b, dec, env);
    StoppedStaysStopped(a, b, dec, env);
    assert r.events + [] == r.events;
  }

  /** A cycle that lets the program go on: the one scan continues from the
      leftover, which is settled. */
  lemma GoingCycle(a: seq<byte>, b: seq<byte>, dec: Decoders, env: Env)
    requires !Fatal(Scan(a, dec, env).stop)
    ensures Settled(Scan(a, dec, env).rest, dec, env)
    ensures var r := Scan(a, dec, env);
      && Scan(a + b, dec, env).events == r.events + Scan(r.rest + b, dec, env).events
      && Scan(a + b, dec, env).stop == Scan(r.rest + b, dec, env).stop
  {
    ScanAppend(a, b, dec, env);
    CycleSettles(a, dec, env);
  }

  /** No loss and no duplication across reads: starting from a settled
      buffer, the read loop forwards exactly the events of one scan over
      everything read, and ends the program exactly when that scan hits a
      fatal frame. */
  lemma {:induction false} RunIsOneScan(leftover: seq<byte>, chunks: seq<seq<byte>>, dec: Decoders, env: Env)
    requires Settled(leftover, dec, env)
    ensures Run(leftover, chunks, dec, env).events == Scan(leftover + Concat(chunks), dec, env).events
    ensures Fatal(Run(leftover, chunks, dec, env).stop) <==> Fatal(Scan(leftover + Concat(chunks), dec, env).stop)
    ensures Fatal(Run(leftover, chunks, dec, env).stop) ==>
      Run(leftover, chunks, dec, env).stop == Scan(leftover + Concat(chunks), dec, env).stop
    decreases |chunks|
  {
    if |chunks| == 0 {
      assert leftover + [] == leftover;
      SettledQuiet(leftover, dec, env);
    } else {
      var a := leftover + chunks[0];
      ConcatCons(leftover, chunks);
      if Fatal(Scan(a, dec, env).stop) {
        FatalCycle(a, Concat(chunks[1..]), dec, env);
      } else {
        GoingCycle(a, Concat(chunks[1..]), dec, env);
        RunIsOneScan(Scan(a, dec, env).rest, chunks[1..], dec, env);
      }
    }
  }

  /** `rest` is a suffix of `data` that starts at a frame boundary: it is
      the whole of `data` or follows a zero byte. */
  predicate AtBoundary(data: seq<byte>, rest: seq<byte>) {
    EndsWith(data, rest) && (|rest| == |data| || data[|data| - |rest| - 1] == 0)
  }

  /** The leftover always starts at a frame boundary. With `Scan`'s own
      guarantee that a drained leftover has no zero, this makes it exactly
      the bytes after the last zero. */
  lemma {:induction false} ScanRestAtBoundary(data: seq<byte>, dec: Decoders, env: Env)
    ensures AtBoundary(data, Scan(data, dec, env).rest)
    decreases |data|
  {
    match FirstZero(data)
    case None =>
    case Some(end) =>
      ScanFrame(data, end, dec, env);
      if !DecodeFrame(data[..end], dec, env).Halt? {
        var tail := data[end + 1..];
        ScanRestAtBoundary(tail, dec, env);
        BoundaryInTail(data, end, Scan(tail, dec, env).rest);
      }
  }

  lemma BoundaryInTail(data: seq<byte>, end: nat, rest: seq<byte>)
    requires end < |data| && data[end] == 0
    requires AtBoundary(data[end + 1..], rest)
    ensures AtBoundary(data, rest)
  {
    var tail := data[end + 1..];
    var k := |tail| - |rest|;
    assert data[end + 1 + k..] == tail[k..];
  }

  /** Every decoded frame's index is one of `indices`. */
  ghost predicate IndicesCover(dec: Decoders, indices: seq<nat>) {
    forall m :: dec.table(m).Decoded? ==> dec.table(m).frame.index in indices
  }

  /** The `locs[&frame.index()]` lookup never panics: when the map passed
      the completeness check and the table only yields its own indices, no
      scan stops for a missing location. */
  lemma {:induction false} NoMissingLocation(data: seq<byte>, dec: Decoders, env: Env, indices: seq<nat>, locs: map<nat, Location>)
    requires env.locs == LocationsIfComplete(indices, locs) && IndicesCover(dec, indices)
    ensures Scan(data, dec, env).stop != MissingLocation
    decreases |data|
  {
    match FirstZero(data)
    case None =>
    case Some(end) =>
      var f := data[..end];
      if |f| > 0 && dec.rzcobs(f).Some? && dec.table(dec.rzcobs(f).value).Decoded? {
        var frame := dec.table(dec.rzcobs(f).value).frame;
        assert frame.index in indices;
        if env.locs.Some? {
          var k :| 0 <= k < |indices| && indices[k] == frame.index;
          assert frame.index in env.locs.value;
        }
      }
      match DecodeFrame(f, dec, env)
      case Halt(stop) =>
      case Skip => NoMissingLocation(data[end + 1..], dec, env, indices, locs);
      case Emit(ev) => NoMissingLocation(data[end + 1..], dec, env, indices, locs);
  }

  /** What a forwarded event carries: nothing when the location map was
      dropped; otherwise the entry of its index, with the line cut to 32
      bits, and the file relative to the current directory when it lies
      under it and unchanged when it does not. */
  predicate Annotated(e: Event, env: Env) {
    match env.locs
    case None => e.file.None? && e.line.None? && e.modulePath.None?
    case Some(locs) =>
      && e.frame.index in locs
      && e.line == Some(locs[e.frame.index].line % U32Modulus)
      && e.modulePath == Some(locs[e.frame.index].modulePath)
      && e.file.Some?
      && (Under(locs[e.frame.index].file, env.cwd) ==>
            !e.file.value.absolute && PathPush(env.cwd, e.file.value) == locs[e.frame.index].file)
      && (!Under(locs[e.frame.index].file, env.cwd) ==> e.file.value == locs[e.frame.index].file)
  }

  lemma AnnotateSound(frame: Frame, env: Env)
    requires Annotate(frame, env).Some?
    ensures Annotated(Annotate(frame, env).value, env)
  {
  }

  /** Every event of a scan carries its frame's location data. */
  lemma {:induction false} ScanAnnotated(data: seq<byte>, dec: Decoders, env: Env)
    ensures forall i :: 0 <= i < |Scan(data, dec, env).events| ==> Annotated(Scan(data, dec, env).events[i], env)
    decreases |data|
  {
    match FirstZero(data)
    case None =>
    case Some(end) =>
      var f := data[..end];
      match DecodeFrame(f, dec, env)
      case Halt(stop) =>
      case Skip => ScanAnnotated(data[end + 1..], dec, env);
      case Emit(ev) =>
        FrameCases(f, dec, env);
        var frame := dec.table(dec.rzcobs(f).value).frame;
        AnnotateSound(frame, env);
        ScanAnnotated(data[end + 1..], dec, env);
  }
}

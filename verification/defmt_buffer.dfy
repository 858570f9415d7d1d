/** The firmware side of `defmt-buffer` (firmware/defmt-buffer/src/lib.rs): a
    global logger that gives each interrupt priority level its own producer
    of a framed queue. `acquire` takes a 1024-byte grant for the current
    priority, `write` appends into it without ever running past its end, and
    `release` commits what was written as one frame, or an empty frame when
    the grant overflowed.

    The PRIMASK and BASEPRI registers are inputs, the sixteen `static mut`
    slot arrays are one state value, and a producer's grant is the byte
    window the queue hands out (or none when the queue is full). */
module DefmtBuffer {
  import opened Common

  const PrioLevels := 16
  const GrantSize := 1024

  /** A writer over one grant: the granted bytes and how many are used. */
  datatype Writer = Writer(grant: seq<byte>, written: nat)

  /** The invariant `write` keeps: the cursor never passes the grant. */
  predicate WriterValid(w: Writer) {
    w.written <= |w.grant|
  }

  /** Whether `bytes` fit in what is left of the grant. */
  predicate Fits(w: Writer, bytes: seq<byte>) {
    |bytes| <= |w.grant| - w.written
  }

  /** `g` with `bytes` copied in from offset `at`. */
  function Spliced(g: seq<byte>, at: nat, bytes: seq<byte>): (r: seq<byte>)
    requires at + |bytes| <= |g|
    ensures |r| == |g|
    ensures r[at..at + |bytes|] == bytes
    ensures r[..at] == g[..at] && r[at + |bytes|..] == g[at + |bytes|..]
  {
    var r := g[..at] + bytes + g[at + |bytes|..];
    assert r[at..at + |bytes|] == bytes;
    r
  }

  /** `Writer::write`: bytes that fit are copied right after what is
      already written and nothing else changes; bytes that do not fit are
      dropped and the cursor jumps to the end, so that no later write can
      add anything but an empty slice. */
  function Write(w: Writer, bytes: seq<byte>): (r: Writer)
    requires WriterValid(w)
    ensures WriterValid(r) && |r.grant| == |w.grant|
    ensures Fits(w, bytes) ==>
      && r.written == w.written + |bytes|
      && r.grant[w.written..r.written] == bytes
      && r.grant[..w.written] == w.grant[..w.written]
      && r.grant[r.written..] == w.grant[r.written..]
    ensures !Fits(w, bytes) ==> r.grant == w.grant && r.written == |w.grant|
  {
    if Fits(w, bytes) then Writer(Spliced(w.grant, w.written, bytes), w.written + |bytes|)
    else w.(written := |w.grant|)
  }

  /** `copy_from_slice` into `buf[at..at + |bytes|]`, one byte at a time. */
  method CopyFromSlice(buf: seq<byte>, at: nat, bytes: seq<byte>) returns (r: seq<byte>)
    requires at + |bytes| <= |buf|
    ensures |r| == |buf|
    ensures forall i :: at <= i < at + |bytes| ==> r[i] == bytes[i - at]
    ensures forall i :: 0 <= i < |buf| && !(at <= i < at + |bytes|) ==> r[i] == buf[i]
  {
    r := buf;
    var k := 0;
    while k < |bytes|
      invariant 0 <= k <= |bytes|
      invariant |r| == |buf|
      invariant forall i :: at <= i < at + k ==> r[i] == bytes[i - at]
      invariant forall i :: 0 <= i < |buf| && !(at <= i < at + k) ==> r[i] == buf[i]
    {
      r := r[at + k := bytes[k]];
      k := k + 1;
    }
  }

  /** `Writer::write` as the firmware runs it, with the available space
      computed first and the copy done in place; it agrees with `Write`. */
  method WriteInPlace(w: Writer, bytes: seq<byte>) returns (r: Writer)
    requires WriterValid(w)
    ensures r == Write(w, bytes)
  {
    var available := |w.grant| - w.written;
    if |bytes| <= available {
      var g := CopyFromSlice(w.grant, w.written, bytes);
      var spliced := Spliced(w.grant, w.written, bytes);
      assert g == spliced by {
        forall i | 0 <= i < |g|
          ensures g[i] == spliced[i]
        {
          if w.written <= i < w.written + |bytes| {
            assert spliced[w.written..w.written + |bytes|][i - w.written] == spliced[i];
          } else if i < w.written {
            assert spliced[..w.written][i] == spliced[i];
          } else {
            assert spliced[w.written + |bytes|..][i - w.written - |bytes|] == spliced[i];
          }
        }
      }
      r := Writer(g, w.written + |bytes|);
    } else {
      r := w.(written := |w.grant|);
    }
  }

  /** The successive `write` calls of one log statement. */
  function WriteAll(w: Writer, pieces: seq<seq<byte>>): (r: Writer)
    requires WriterValid(w)
    ensures WriterValid(r) && |r.grant| == |w.grant|
    ensures w.written <= r.written
    decreases |pieces|
  {
    if |pieces| == 0 then w else WriteAll(Write(w, pieces[0]), pieces[1..])
  }

  /** How many bytes `release` commits: all that was written while the
      grant has room left, and none once it is full, which also drops a
      record that fills the grant exactly. */
  function CommitLength(w: Writer): (n: nat)
    requires WriterValid(w)
    ensures n < |w.grant| || n == 0
    ensures n == w.written <==> w.written < |w.grant| || w.written == 0
    ensures n != w.written ==> n == 0
  {
    if w.written < |w.grant| then w.written else 0
  }

  /** The frame `release` hands to the queue. */
  function Committed(w: Writer): (frame: seq<byte>)
    requires WriterValid(w)
    ensures |frame| == CommitLength(w)
    ensures StartsWith(w.grant, frame)
  {
    w.grant[..CommitLength(w)]
  }

  /** The priority both `acquire` and `release` derive from the registers:
      0 when the PRIMASK register reads `Active`, otherwise the BASEPRI band of width
      16 the register value falls in (its upper four bits). */
  function Priority(primaskActive: bool, basepri: byte): (p: nat)
    ensures p < PrioLevels
    ensures primaskActive ==> p == 0
    ensures !primaskActive ==> p * 16 <= basepri as int < p * 16 + 16
  {
    if primaskActive then 0 else basepri as int / 16
  }

  /** A producer handle of the framed queue. */
  datatype Producer = Producer(id: nat)

  /** The `PRODS` and `WRITERS` arrays and the `INIT` flag. */
  datatype Slots = Slots(prods: seq<Option<Producer>>, writers: seq<Option<Writer>>, initialized: bool)

  predicate SlotsValid(s: Slots) {
    && |s.prods| == PrioLevels
    && |s.writers| == PrioLevels
    && forall i :: 0 <= i < PrioLevels && s.writers[i].Some? ==> WriterValid(s.writers[i].value)
  }

  /** What `init` finds: every slot empty and the flag clear. */
  function Boot(): (s: Slots)
    ensures SlotsValid(s) && !s.initialized
    ensures forall i :: 0 <= i < PrioLevels ==> s.prods[i].None? && s.writers[i].None?
  {
    Slots(seq(PrioLevels, _ => None), seq(PrioLevels, _ => None), false)
  }

  /** `acquire`: nothing when the current priority has no producer or the
      queue cannot grant 1024 bytes; otherwise a fresh writer over the
      grant goes into that priority's slot, and nothing else changes.
      A successful grant has exactly the requested size. */
  function Acquire(s: Slots, primaskActive: bool, basepri: byte, grant: Option<seq<byte>>): (r: Option<Slots>)
    requires SlotsValid(s)
    requires grant.Some? ==> |grant.value| == GrantSize
    ensures var p := Priority(primaskActive, basepri);
      r.Some? <==> s.prods[p].Some? && grant.Some?
    ensures r.Some? ==> SlotsValid(r.value)
    ensures r.Some? ==> var p := Priority(primaskActive, basepri);
      && r.value.writers[p] == Some(Writer(grant.value, 0))
      && r.value.prods == s.prods
      && r.value.initialized == s.initialized
      && forall i :: 0 <= i < PrioLevels && i != p ==> r.value.writers[i] == s.writers[i]
  {
    var p := Priority(primaskActive, basepri);
    if s.prods[p].None? then None
    else match grant
      case None => None
      case Some(g) => Some(s.(writers := s.writers[p := Some(Writer(g, 0))]))
  }

  /** `write` through the pointer `acquire` handed out. */
  function WriteSlot(s: Slots, p: nat, bytes: seq<byte>): (r: Slots)
    requires SlotsValid(s) && p < PrioLevels && s.writers[p].Some?
    ensures SlotsValid(r) && r.prods == s.prods && r.initialized == s.initialized
    ensures r.writers[p] == Some(Write(s.writers[p].value, bytes))
    ensures forall i :: 0 <= i < PrioLevels && i != p ==> r.writers[i] == s.writers[i]
  {
    s.(writers := s.writers[p := Some(Write(s.writers[p].value, bytes))])
  }

  /** The state after `release`, and the frame it commits; `None` when the
      slot held no writer, which the firmware reports as a debug assertion. */
  datatype Released = Released(slots: Slots, commit: Option<seq<byte>>)

  /** `release`: take the writer out of the current priority's slot and
      commit its frame. The slot is empty afterwards in every case. */
  function Release(s: Slots, primaskActive: bool, basepri: byte): (r: Released)
    requires SlotsValid(s)
    ensures SlotsValid(r.slots)
    ensures var p := Priority(primaskActive, basepri);
      && r.slots.writers[p].None?
      && r.slots.prods == s.prods
      && r.slots.initialized == s.initialized
      && (forall i :: 0 <= i < PrioLevels && i != p ==> r.slots.writers[i] == s.writers[i])
      && (r.commit.None? <==> s.writers[p].None?)
      && (r.commit.Some? ==> r.commit.value == Committed(s.writers[p].value))
  {
    var p := Priority(primaskActive, basepri);
    var s' := s.(writers := s.writers[p := None]);
    match s.writers[p]
    case None => Released(s', None)
    case Some(w) => Released(s', Some(Committed(w)))
  }

  datatype InitError = InitCalledTwice

  /** `init`: the first call stores one producer per priority level; any
      later call fails. */
  function Init(s: Slots, producers: seq<Producer>): (r: Result<Slots, InitError>)
    requires SlotsValid(s) && |producers| == PrioLevels
    ensures r.Err? <==> s.initialized
    ensures r.Ok? ==> SlotsValid(r.value) && r.value.initialized && r.value.writers == s.writers
    ensures r.Ok? ==> forall i :: 0 <= i < PrioLevels ==> r.value.prods[i] == Some(producers[i])
  {
    if s.initialized then Err(InitCalledTwice)
    else Ok(Slots(seq(PrioLevels, i requires 0 <= i < PrioLevels => Some(producers[i])), s.writers, true))
  }
}

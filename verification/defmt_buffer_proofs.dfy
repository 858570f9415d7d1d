/** What the firmware logger promises: writes of one log statement
    accumulate in order until the grant overflows, after which nothing more
    goes in; `release` commits the whole record exactly when it is shorter
    than the grant; and the slots stay coherent across `init`, `acquire`,
    `write` and `release`. */
module DefmtBufferProofs {
  import opened Common
  import opened DefmtBuffer

  /** Copying `a` and then `b` right after it is copying `a + b`. */
  lemma SplicedTwice(g: seq<byte>, at: nat, a: seq<byte>, b: seq<byte>)
    requires at + |a| + |b| <= |g|
    ensures Spliced(Spliced(g, at, a), at + |a|, b) == Spliced(g, at, a + b)
  {
    var g1 := Spliced(g, at, a);
    assert g1[..at + |a|] == g[..at] + a;
    assert g1[at + |a| + |b|..] == g[at + |a| + |b|..];
  }

  /** Once a write has overflowed, every later write leaves the writer as
      it is: only empty writes still "succeed", and they add nothing. */
  lemma {:induction false} FullStaysFull(w: Writer, pieces: seq<seq<byte>>)
    requires WriterValid(w) && w.written == |w.grant|
    ensures WriteAll(w, pieces) == w
    decreases |pieces|
  {
    if |pieces| > 0 {
      if Fits(w, pieces[0]) {
        assert Spliced(w.grant, w.written, pieces[0]) == w.grant;
      }
      FullStaysFull(Write(w, pieces[0]), pieces[1..]);
    }
  }

  /** The writes of one log statement: when everything fits, the pieces
      land one after another right after what was written before;
      otherwise the writer ends up full. */
  lemma {:induction false} WriteAllOutcome(w: Writer, pieces: seq<seq<byte>>)
    requires WriterValid(w)
    ensures Fits(w, Concat(pieces)) ==>
      WriteAll(w, pieces) == Writer(Spliced(w.grant, w.written, Concat(pieces)), w.written + |Concat(pieces)|)
    ensures !Fits(w, Concat(pieces)) ==> WriteAll(w, pieces).written == |w.grant|
    decreases |pieces|
  {
    if |pieces| == 0 {
      assert Spliced(w.grant, w.written, []) == w.grant;
    } else {
      var p := pieces[0];
      var rest := pieces[1..];
      var w1 := Write(w, p);
      WriteAllOutcome(w1, rest);
      if !Fits(w, p) {
        FullStaysFull(w1, rest);
      } else if Fits(w, Concat(pieces)) {
        SplicedTwice(w.grant, w.written, p, Concat(rest));
      }
    }
  }

  /** One record through a fresh 1024-byte grant: `release` commits it
      whole when it is shorter than the grant and commits an empty
      frame otherwise, a record of exactly 1024 bytes included. */
  lemma RecordOutcome(g: seq<byte>, pieces: seq<seq<byte>>)
    requires |g| == GrantSize
    ensures |Concat(pieces)| < GrantSize ==> Committed(WriteAll(Writer(g, 0), pieces)) == Concat(pieces)
    ensures |Concat(pieces)| >= GrantSize ==> Committed(WriteAll(Writer(g, 0), pieces)) == []
  {
    WriteAllOutcome(Writer(g, 0), pieces);
  }

  /** The successive writes of a log statement, through the slot. */
  function WriteSlotAll(s: Slots, p: nat, pieces: seq<seq<byte>>): (r: Slots)
    requires SlotsValid(s) && p < PrioLevels && s.writers[p].Some?
    ensures SlotsValid(r) && r.prods == s.prods && r.initialized == s.initialized
    ensures r.writers == s.writers[p := Some(WriteAll(s.writers[p].value, pieces))]
    decreases |pieces|
  {
    if |pieces| == 0 then
      assert s.writers[p := Some(s.writers[p].value)] == s.writers;
      s
    else WriteSlotAll(WriteSlot(s, p, pieces[0]), p, pieces[1..])
  }

  /** A whole log statement at one priority, from `acquire` to `release`:
      the queue receives the record when it is shorter than the grant and
      an empty frame otherwise, and the slot ends empty. */
  lemma Session(s: Slots, primaskActive: bool, basepri: byte, g: seq<byte>, pieces: seq<seq<byte>>)
    requires SlotsValid(s) && |g| == GrantSize
    requires s.prods[Priority(primaskActive, basepri)].Some?
    ensures var p := Priority(primaskActive, basepri);
      var s1 := Acquire(s, primaskActive, basepri, Some(g)).value;
      var r := Release(WriteSlotAll(s1, p, pieces), primaskActive, basepri);
      && r.commit == Some(if |Concat(pieces)| < GrantSize then Concat(pieces) else [])
      && r.slots.writers == s.writers[p := None]
  {
    var p := Priority(primaskActive, basepri);
    var s1 := Acquire(s, primaskActive, basepri, Some(g)).value;
    var s2 := WriteSlotAll(s1, p, pieces);
    RecordOutcome(g, pieces);
    var r := Release(s2, primaskActive, basepri);
    assert r.slots.writers == s.writers[p := None];
  }

  /** The slots as the firmware can find them: well-formed, and without
      producers until `init` has run. */
  predicate Coherent(s: Slots) {
    SlotsValid(s) && (!s.initialized ==> forall i :: 0 <= i < PrioLevels ==> s.prods[i].None?)
  }

  /** Logging before `init` yields nothing: `acquire` finds no producer. */
  lemma AcquireBeforeInit(s: Slots, primaskActive: bool, basepri: byte, grant: Option<seq<byte>>)
    requires Coherent(s) && !s.initialized
    requires grant.Some? ==> |grant.value| == GrantSize
    ensures Acquire(s, primaskActive, basepri, grant).None?
  {
  }

  /** Every operation keeps the slots coherent. */
  lemma CoherentPreserved(s: Slots, primaskActive: bool, basepri: byte, grant: Option<seq<byte>>, producers: seq<Producer>)
    requires Coherent(s)
    requires grant.Some? ==> |grant.value| == GrantSize
    ensures Coherent(Boot())
    ensures Acquire(s, primaskActive, basepri, grant).Some? ==> Coherent(Acquire(s, primaskActive, basepri, grant).value)
    ensures Coherent(Release(s, primaskActive, basepri).slots)
    ensures |producers| == PrioLevels && Init(s, producers).Ok? ==> Coherent(Init(s, producers).value)
  {
  }

  /** `init` runs once: after a successful call, the next one fails. */
  lemma InitOnce(s: Slots, first: seq<Producer>, second: seq<Producer>)
    requires SlotsValid(s) && |first| == PrioLevels && |second| == PrioLevels
    ensures Init(Boot(), first).Ok?
    ensures Init(s, first).Ok? ==> Init(Init(s, first).value, second) == Err(InitCalledTwice)
  {
  }
}

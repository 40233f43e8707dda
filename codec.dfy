/**
 * The reference line decoder: an object that keeps its scan phase, the index
 * where the next line begins and a message accumulator between calls, and
 * hands every completed line to a bounded channel.
 */
module Codec {
  import opened Basics
  import opened Channel
  import opened LineScan

  /** The outcome of the socket read that filled the buffer: a byte count or an I/O error. */
  datatype ReadOutcome = Ok(size: nat) | Err

  /**
   * Index, relative to `from`, of the first line-feed in `buf[from..to]`:
   * `nl` is `None` when there is none, and otherwise `from + nl` is the first
   * line-feed at or after `from` (its properties are those of `FirstLF`).
   */
  method Position(buf: array<Byte>, from: nat, to: nat) returns (nl: Option<nat>)
    requires from <= to <= buf.Length
    ensures nl.None? <==> FirstLF(buf[..to], from).None?
    ensures nl.Some? ==> FirstLF(buf[..to], from) == Some(from + nl.value)
  {
    ghost var c := buf[..to];
    var k := from;
    while k < to
      invariant from <= k <= to
      invariant forall j :: from <= j < k ==> c[j] != LF
    {
      if buf[k] == LF {
        FirstLFAt(c, from, k);
        return Some(k - from);
      }
      k := k + 1;
    }
    NoLFFrom(c, from);
    return None;
  }

  /** Where the decoding loop stands: the index it is about to look at, `start` and the phase. */
  datatype Cursor = Cursor(i: nat, start: nat, phase: Phase)

  /**
   * The loop's own invariant: `start` never passes `i`, and in phase `Data`
   * the loop only comes back to an index past `start + 1` when no line-feed
   * is left (the iterations that then only count `i` up).
   */
  ghost predicate Steady(c: Bytes, k: Cursor)
  {
    k.start <= k.i <= |c| &&
    (k.phase == Data && k.i < |c| ==> k.start + 1 >= k.i || FirstLF(c, k.start).None?)
  }

  /** Twice the bytes left, plus one in phase `Data`: every iteration lowers it. */
  function Measure(c: Bytes, k: Cursor): (r: int)
  {
    2 * (|c| - k.i) + (if k.phase == Data then 1 else 0)
  }

  /**
   * One iteration of the decoding loop at cursor `k`: the lines it hands to
   * the channel (none or one) and the cursor after it.
   */
  function Step(c: Bytes, k: Cursor): (r: (seq<Bytes>, Cursor))
    requires Steady(c, k) && k.i < |c|
    ensures Steady(c, r.1) && 0 <= Measure(c, r.1) < Measure(c, k)
    ensures k.start <= r.1.start
    ensures |r.0| <= 1
  {
    match k.phase
    case Data =>
      (match FirstLF(c, k.start)
       case None => ([], Cursor(k.i + 1, k.start, Data))
       case Some(q) => ([c[k.start..q]], Cursor(q + 1, k.start, NL)))
    case NL =>
      var start := if c[k.i] == CR then (if k.i < |c| - 1 then k.i + 1 else k.start) else k.i;
      ([], Cursor(k.i + 1, start, Data))
  }

  /** What the loop hands to the channel from cursor `k` on, and the phase and `start` it stops with. */
  ghost function Run(c: Bytes, k: Cursor): (r: Outcome)
    requires Steady(c, k)
    ensures k.i == |c| ==> r == Outcome([], k.phase, k.start)
    ensures k.start <= r.start <= |c|
    decreases Measure(c, k)
  {
    if k.i == |c| then Outcome([], k.phase, k.start)
    else
      var (lines, next) := Step(c, k);
      var rest := Run(c, next);
      Outcome(lines + rest.lines, rest.phase, rest.start)
  }

  /** From phase `Data` before the end, the loop does what `FromData` describes. */
  lemma {:induction false} RunFromData(c: Bytes, i: nat, start: nat)
    requires Steady(c, Cursor(i, start, Data)) && i < |c|
    ensures Run(c, Cursor(i, start, Data)) == FromData(c, start)
    decreases 2 * (|c| - i) + 1
  {
    var k := Cursor(i, start, Data);
    match FirstLF(c, start)
    case None =>
      assert Step(c, k) == ([], Cursor(i + 1, start, Data));
      assert [] + Run(c, Cursor(i + 1, start, Data)).lines == Run(c, Cursor(i + 1, start, Data)).lines;
      if i + 1 < |c| {
        RunFromData(c, i + 1, start);
      }
    case Some(q) =>
      assert Step(c, k) == ([c[start..q]], Cursor(q + 1, start, NL));
      RunAfterLF(c, q + 1, start);
  }

  /** From phase `NL`, the loop does what `AfterLF` describes. */
  lemma {:induction false} RunAfterLF(c: Bytes, i: nat, start: nat)
    requires start <= i <= |c|
    ensures Run(c, Cursor(i, start, NL)) == AfterLF(c, i, start)
    decreases 2 * (|c| - i)
  {
    if i < |c| {
      if c[i] == CR {
        if i < |c| - 1 {
          RunFromData(c, i + 1, i + 1);
        }
      } else if i + 1 < |c| {
        RunFromData(c, i + 1, i);
      }
    }
  }

  /** A whole pass of the loop from index 0 does what `Scan` describes. */
  lemma RunIsScan(entry: Phase, c: Bytes)
    ensures Run(c, Cursor(0, 0, entry)) == Scan(entry, c)
  {
    if entry == Data {
      if |c| > 0 {
        RunFromData(c, 0, 0);
      }
    } else {
      RunAfterLF(c, 0, 0);
    }
  }

  class LineCodec {
    var state: Phase
    const tx: Sender
    var start: nat
    var current: Option<Bytes>

    /** Between calls the accumulator holds an empty buffer. */
    ghost predicate Valid()
      reads this
    {
      current == Some([])
    }

    constructor (tx: Sender)
      ensures Valid()
      ensures state == Data && start == 0 && current == Some([]) && this.tx == tx
    {
      state := Data;
      this.tx := tx;
      start := 0;
      current := Some([]);
    }

    /**
     * The line `buf[start..start + nl]`, ended by a line-feed, is added to the
     * accumulator, taken out of it and offered to `tx`; the accumulator is then
     * emptied and the phase becomes `NL`. Returns the loop index moved to the
     * line-feed (it stays `at` only if there were no accumulator).
     */
    method EmitLine(buf: array<Byte>, nl: nat, at: nat) returns (i: nat)
      requires Valid()
      requires start + nl < buf.Length
      modifies this, tx
      ensures Valid() && state == NL && start == old(start) && i == start + nl
      ensures tx.queue == if |old(tx.queue)| < tx.capacity then old(tx.queue) + [buf[start..i]] else old(tx.queue)
    {
      i := at;
      var send := false;
      if current.Some? {
        current := Some(current.value + buf[start..nl + start]);
        i := nl + start;
        send := true;
      }
      if send {
        var msg := current.value;
        assert msg == buf[start..i];
        current := None;
        var _ := tx.TrySend(msg);
      }
      current := Some([]);
      state := NL;
    }

    /**
     * One iteration of the loop over `buf[..n]` at index `i`: in phase `Data` the next
     * line, if there is one, goes to `tx`; in phase `NL` the byte after a
     * line-feed decides where the next line starts.
     */
    method Advance(buf: array<Byte>, n: nat, i: nat) returns (next: nat)
      requires n <= buf.Length
      requires Valid() && Steady(buf[..n], Cursor(i, start, state)) && i < n
      modifies this, tx
      ensures Valid()
      ensures var (lines, after) := Step(buf[..n], Cursor(i, old(start), old(state)));
        Cursor(next, start, state) == after && tx.queue == Deliver(old(tx.queue), tx.capacity, lines)
    {
      next := i;
      match state {
        case Data =>
          var nl := Position(buf, start, n);
          if nl.Some? {
            assert buf[start..start + nl.value] == buf[..n][start..start + nl.value];
            next := EmitLine(buf, nl.value, i);
          }
        case NL =>
          if buf[i] == CR {
            if i < n - 1 {
              start := i + 1;
            }
          } else {
            start := i;
          }
          state := Data;
      }
      next := next + 1;
    }

    /**
     * Decodes `buf[0..sz]` from the phase the previous call left behind: every
     * line found is offered to `tx` (and lost if the queue is full), and the
     * phase is kept for the next call. A read error leaves everything but
     * `start` as it was.
     */
    method ParseAndDispatch(buf: array<Byte>, sz: ReadOutcome)
      requires Valid()
      requires sz.Ok? ==> sz.size <= buf.Length
      modifies this, tx
      ensures Valid()
      ensures sz.Err? ==> state == old(state) && start == 0 && tx.queue == old(tx.queue)
      ensures sz.Ok? ==>
        var outcome := Scan(old(state), buf[..sz.size]);
        state == outcome.phase && start == outcome.start &&
        tx.queue == Deliver(old(tx.queue), tx.capacity, outcome.lines)
    {
      start := 0;
      var i: nat := 0;
      if sz.Ok? {
        var n := sz.size;
        ghost var c := buf[..n];
        ghost var total := Run(c, Cursor(0, 0, state));
        RunIsScan(state, c);
        ghost var queue0 := tx.queue;
        while i < n
          invariant Valid() && Steady(c, Cursor(i, start, state)) && buf[..n] == c
          invariant Run(c, Cursor(i, start, state)).phase == total.phase
          invariant Run(c, Cursor(i, start, state)).start == total.start
          invariant Deliver(tx.queue, tx.capacity, Run(c, Cursor(i, start, state)).lines)
                 == Deliver(queue0, tx.capacity, total.lines)
          decreases Measure(c, Cursor(i, start, state))
        {
          ghost var k := Cursor(i, start, state);
          ghost var queue := tx.queue;
          i := Advance(buf, n, i);
          DeliverConcat(queue, tx.capacity, Step(c, k).0, Run(c, Cursor(i, start, state)).lines);
        }
      }
    }
  }
}

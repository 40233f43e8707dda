# Line decoder of tcp_sessions, in Dafny

This project models `LineCodec`, the reference decoder of the `tcp_sessions`
crate (`examples/line_codec.rs`). Each connection worker reads its socket
into a buffer and calls `parse_and_dispatch(buf, sz)` on its decoder. The
line decoder remembers two things between calls: a scan phase (`Data` while
it looks for a line-feed, `NL` right after one) and an accumulator. On every
call it does three things:
- it cuts the bytes `buf[0..sz]` at each line-feed (byte 10);
- it offers every completed line to the bounded data channel with
  `try_send`, and a line that finds the channel full is dropped;
- after a line-feed it skips one carriage return (byte 13), including a
  carriage return that arrives at the start of the next read.

The project is laid out as follows:
- `basics.dfy`: bytes and `Option`.
- `channel.dfy`: the sending half of the data channel (`Sender`, with its
  queue and capacity). `Deliver` is the queue after a batch of `try_send`s.
- `line_scan.dfy`: the specification of one call.
  - `Scan` follows the decoder line by line. It is built from `FromData`
    and `AfterLF`.
  - `Lines` and `EndPhase` describe the same output independently: split
    the chunk at every line-feed, keep the pieces that are ended by a
    line-feed, strip one leading carriage return from each piece that
    follows a line-feed, and drop the last piece only when the chunk's last
    byte is a line-feed directly after another line-feed (for a one-byte
    chunk entered in `NL`, the line-feed that ended the previous read).
- `line_lemmas.dfy`: the proofs, chiefly:
  - `Scan` agrees with `Lines`;
  - no line holds a line-feed;
  - the number of lines;
  - every line is a slice of the chunk that ends at a line-feed;
  - a chunk boundary directly after an emitted line-feed changes nothing.
- `codec.dfy`: the decoder itself.
  - `LineCodec` is a class with the source's fields `state`, `tx`, `start`
    and `current`.
  - `ParseAndDispatch` is the source's `while` loop over a byte array.
  - `Advance` is one pass of the loop body, `EmitLine` is the send path and
    `Position` is the line-feed search.
  - The loop is proved against `Step`/`Run` (one iteration, and the rest of
    the loop, as functions), and `RunIsScan` ties those to `Scan`.
- `scenarios.dfy`: small chunks worked through the specification.

`ParseAndDispatch` ensures that, for `sz = Ok(n)`, the phase and `start`
become those of `Scan(old(state), buf[..n])`. The channel's queue becomes
`Deliver(old queue, capacity, Scan(...).lines)`: the lines are offered in
order and the channel keeps those that fit. Together with
`LineLemmas.ScanMatchesLines`, this gives the decoder's whole observable
behaviour in terms of the line-feed split.

In two places the code does not do what a line splitter might be expected
to do, and the model follows the code:
- **A line split across reads is not reassembled.** Bytes after the last
  line-feed of a read are not kept. The next call starts again at index 0
  with an empty accumulator, so `"he"` followed by `"llo\n"` emits only
  `"llo"` (`Scenarios.PartialLineAcrossReads`). What the code does keep
  across reads is the phase, which is exactly what its own remark at
  `examples/line_codec.rs:34-36` claims: a line-feed/carriage-return pair
  split over two reads is still recognised
  (`Scenarios.CRLFSplitAcrossReads`, `LineLemmas.ResumeAfterLF`).
- **A trailing empty line can be lost.** When the last byte of a read is a
  line-feed right after another line-feed, the second line-feed is only
  looked at in phase `NL` and is never searched for. The empty line it
  ends is not emitted, and the phase left behind is `Data`
  (`LineScan.DropsFinal`, `Scenarios.EmptyLastLine`).

## Model

| member | source | states |
|---|---|---|
| Codec.LineCodec.constructor | examples/line_codec.rs:21-28 | a new decoder starts in phase `Data` with `start = 0`, an empty accumulator and the given sender |
| Codec.LineCodec.ParseAndDispatch | examples/line_codec.rs:37-79 | on `Ok(n)`, the phase and `start` end as `Scan` of `buf[..n]` from the entry phase says, and the channel receives `Scan`'s lines in order, dropping those that find it full; on an error nothing but `start` (reset to 0) changes; the accumulator is empty again afterwards |
| Codec.LineCodec.Advance | examples/line_codec.rs:42-76 | one loop iteration moves the cursor and the channel exactly as `Step` says: a found line is sent and the index jumps to its line-feed; otherwise only the index advances; in `NL` a carriage return moves `start` past itself unless it is the last byte, and any other byte becomes `start` |
| Codec.LineCodec.EmitLine | examples/line_codec.rs:45-60 | the bytes from `start` up to the line-feed are offered to the channel (appended when it has room, else dropped), the index moves to the line-feed, the accumulator is emptied and the phase becomes `NL` |
| Codec.Position | examples/line_codec.rs:44 | returns the offset of the first line-feed in `buf[from..to]`, or none exactly when that range has no line-feed |
| Codec.Step | examples/line_codec.rs:42-76 | one iteration emits at most one line, never moves `start` backwards, keeps the loop invariant (`start <= i`, and `Data` far past `start` only when no line-feed remains) and strictly lowers the termination measure |
| Codec.Run | examples/line_codec.rs:41-77 | over the rest of the loop `start` never moves backwards (the `NL` branch only sets it to the current index or one past it) and never passes the end of the chunk |
| Codec.RunFromData | examples/line_codec.rs:43-62 | from phase `Data`, the rest of the loop emits and ends as `FromData` says |
| Codec.RunAfterLF | examples/line_codec.rs:63-73 | from phase `NL`, the rest of the loop emits and ends as `AfterLF` says, including the skipped carriage return |
| Codec.RunIsScan | examples/line_codec.rs:38-41 | the whole loop, from index 0 and `start = 0`, is `Scan` |
| Channel.Sender.constructor | src/network.rs:49 | a bounded channel starts empty with the given (positive) capacity |
| Channel.Sender.TrySend | examples/line_codec.rs:52-57 | succeeds exactly when the queue has room, and then appends the message; on failure the queue is unchanged |
| Channel.DeliverFillsFreeSlots | examples/line_codec.rs:52-57 | offering messages in turn keeps exactly the first ones that fit into the free slots, in order, and the queue never exceeds its capacity |
| Channel.DeliverConcat | examples/line_codec.rs:52-57 | offering two batches one after another is offering their concatenation |
| LineScan.FirstLF | examples/line_codec.rs:44 | the result is a line-feed at or after `p` with none before it, and none means no line-feed from `p` on |
| LineScan.SplitLF | examples/line_codec.rs:44-48 | cutting at line-feeds gives one more piece than there are line-feeds |
| LineScan.StripCRs | examples/line_codec.rs:65-68 | stripping carriage returns keeps the number of lines |
| LineLemmas.SplitThenJoin | examples/line_codec.rs:44-48 | the pieces of the line-feed split, joined again with line-feeds, give back the chunk |
| LineLemmas.SplitLFHasNoLF | examples/line_codec.rs:44-48 | no piece of the line-feed split holds a line-feed |
| LineLemmas.SplitLFAt | examples/line_codec.rs:44-48 | the line-feed split of `c[p..]` is the bytes up to the first line-feed followed by the split of what follows it, or the whole of `c[p..]` when there is none |
| LineLemmas.FromDataLines | examples/line_codec.rs:43-62 | from phase `Data` at `start = p`, the lines are the line-terminated pieces of `c[p..]`, the last one dropped only when the chunk ends in two line-feeds at or past `p`, and the phase ends as `NL` exactly when the chunk ends with a line-feed whose line was emitted |
| LineLemmas.AfterLFLines | examples/line_codec.rs:63-73 | from phase `NL` at index `k`, the same with one leading carriage return stripped from the first piece, and `NL` kept when the chunk ends right at `k` |
| LineLemmas.ScanMatchesLines | examples/line_codec.rs:37-79 | the decoder's output for a chunk is its line-feed split: every line-terminated piece, less one leading carriage return after each line-feed, and the last piece dropped only when the chunk's last byte is a line-feed directly after another line-feed (for a one-byte chunk entered in `NL`, the line-feed that ended the previous read) — so `"\n"` still emits one empty line, and so does `"a\n\r\n"` after `"a"`; the phase left is `NL` exactly when the chunk ends in a line-feed whose line was emitted (or the chunk is empty and the phase was `NL`) |
| LineLemmas.ScanLinesHaveNoLF | examples/line_codec.rs:44-48 | no emitted line contains a line-feed |
| LineLemmas.ScanLineCount | examples/line_codec.rs:41-76 | a call emits one line per line-feed in the chunk, one fewer when the final line-feed directly follows another, and never more than the number of line-feeds |
| LineLemmas.ScanLinesAreSlices | examples/line_codec.rs:44-48 | every emitted line is a contiguous run of the chunk that is directly followed by a line-feed |
| LineLemmas.SplitLFAppend | examples/line_codec.rs:44-48 | after a chunk that ends in a line-feed, the split of the concatenation is the split of the first chunk, without its empty last piece, followed by the split of the second chunk |
| LineLemmas.StripCRsAppend | examples/line_codec.rs:63-73 | carriage-return stripping treats the second of two batches of pieces as following a line-feed |
| LineLemmas.LinesAppend | examples/line_codec.rs:34-36 | when a chunk ends in an emitted line-feed, the reference output of the chunk followed by more bytes is its output followed by the output for those bytes entered in `NL` |
| LineLemmas.ResumeAfterLF | examples/line_codec.rs:34-36 | when a call ends in phase `NL`, cutting the stream right there changes nothing: the two calls together emit what one call over both chunks would, and end in the same phase (a carriage return opening the second chunk is still skipped) |
| Scenarios.CRLFSplitAcrossReads | examples/line_codec.rs:34-36 | `"abc\n"` then `"\rdef\n"` emit `"abc"` and `"def"`, as the single read `"abc\n\rdef\n"` does |
| Scenarios.PartialLineAcrossReads | examples/line_codec.rs:40-62 | `"he"` then `"llo\n"` emit nothing and then only `"llo"` |
| Scenarios.LoneLineFeed | examples/line_codec.rs:41-62 | a one-byte chunk `"\n"` entered in `Data` emits one empty line and leaves phase `NL` |
| Scenarios.EmptyLineAfterCR | examples/line_codec.rs:63-73 | `"a\n\r\n"` emits `"a"` and then an empty line (the carriage return is stripped), and leaves phase `NL` |
| Scenarios.EmptyLastLine | examples/line_codec.rs:63-76 | `"a\n\n"` emits only `"a"` and leaves phase `Data` |

## Left out

- The `ParserDispatcher` trait (`src/dispatcher.rs`) is not modelled: it only declares the signature of `parse_and_dispatch` and has no behaviour of its own. `LineCodec` carries that method directly.
- `dispatcher_factory` and `main` in `examples/line_codec.rs` are not modelled. They only wire the decoder into the session manager and drive the example.
- The session worker (`src/session.rs`) and the session manager (`src/network.rs`) are not part of this model. The model needs none of their facts about the call:
  - it takes a buffer of any length, not only the worker's 4096 bytes, and requires only that the read size fits in it, as the slicing at `examples/line_codec.rs:44` does;
  - it covers `Ok(0)`, which the worker never passes on (it stops first): no line is emitted, the phase is kept and `start` is reset to 0;
  - the channel capacity, `channel_buffer_sz` in the manager, is a constructor parameter of `Sender`.
- Reading the socket is left out: the read's result is the parameter `sz` (`ReadOutcome`), and the bytes are the array `buf`.
- `Channel.Sender.TrySend`: a closed receiver is not modelled. In the source that failure, like a full queue, only prints a message and drops the line. The receiving half of the channel and any waiting on it are left out as well.
- `Channel.DeliverFillsFreeSlots` and `Codec.LineCodec.ParseAndDispatch` assume nothing is received from the channel during one call. In the source, `main` drains the receiver concurrently (`examples/line_codec.rs:116`), so a line can still fit after an earlier one in the same call was dropped; the model does not capture that interleaving.
- The diagnostic `println!` on a failed send is left out. It has no effect on state.
- `usize` arithmetic is modelled with unbounded naturals. Every index in the loop stays at most `sz`, and `sz - 1` is only computed when `i < sz`, so no wrap-around can occur.
- The `Option` accumulator `current` is modelled, but its `None` case is never reached: it is only `None` between `take()` and the reset to `Some(vec![])` inside `EmitLine`.

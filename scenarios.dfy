/**
 * Concrete chunks run through the decoder's specification, showing how lines
 * that straddle two reads are treated.
 */
module Scenarios {
  import opened Basics
  import opened LineScan
  import opened LineLemmas

  /**
   * `"abc\n"` then `"\rdef\n"`: the carriage return that opens the second
   * read still belongs to the line ending of the first, so the two reads
   * together emit what the single read `"abc\n\rdef\n"` emits.
   */
  lemma CRLFSplitAcrossReads()
    ensures Scan(Data, [97, 98, 99, 10]) == Outcome([[97, 98, 99]], NL, 0)
    ensures Scan(NL, [13, 100, 101, 102, 10]) == Outcome([[100, 101, 102]], NL, 1)
    ensures Scan(Data, [97, 98, 99, 10, 13, 100, 101, 102, 10]).lines == [[97, 98, 99], [100, 101, 102]]
  {
    var x: Bytes := [97, 98, 99, 10];
    var y: Bytes := [13, 100, 101, 102, 10];
    FirstLFAt(x, 0, 3);
    assert x[0..3] == [97, 98, 99];
    FirstLFAt(y, 1, 4);
    assert y[1..4] == [100, 101, 102];
    ResumeAfterLF(Data, x, y);
    assert x + y == [97, 98, 99, 10, 13, 100, 101, 102, 10];
  }

  /**
   * `"he"` then `"llo\n"`: the bytes after the last line-feed of a read are
   * not carried over, so only `"llo"` is emitted.
   */
  lemma PartialLineAcrossReads()
    ensures Scan(Data, [104, 101]) == Outcome([], Data, 0)
    ensures Scan(Data, [108, 108, 111, 10]).lines == [[108, 108, 111]]
  {
    var x: Bytes := [104, 101];
    var y: Bytes := [108, 108, 111, 10];
    NoLFFrom(x, 0);
    FirstLFAt(y, 0, 3);
    assert y[0..3] == [108, 108, 111];
  }

  /** `"a\n\n"`: the empty line ended by the final line-feed is not emitted, and the phase is `Data`. */
  lemma EmptyLastLine()
    ensures Scan(Data, [97, 10, 10]) == Outcome([[97]], Data, 2)
  {
    var c: Bytes := [97, 10, 10];
    FirstLFAt(c, 0, 1);
    assert c[0..1] == [97];
  }

  /** `"\n"` on its own: the line-feed is found in phase `Data`, so its empty line is emitted. */
  lemma LoneLineFeed()
    ensures Scan(Data, [10]) == Outcome([[]], NL, 0)
  {
    var c: Bytes := [10];
    FirstLFAt(c, 0, 0);
    assert c[0..0] == [];
  }

  /**
   * `"a\n\r\n"`: the carriage return after the first line-feed is skipped,
   * and the empty line it leaves is still emitted because its line-feed is
   * searched for in phase `Data`.
   */
  lemma EmptyLineAfterCR()
    ensures Scan(Data, [97, 10, 13, 10]) == Outcome([[97], []], NL, 3)
  {
    var c: Bytes := [97, 10, 13, 10];
    FirstLFAt(c, 0, 1);
    assert c[0..1] == [97];
    FirstLFAt(c, 3, 3);
    assert c[3..3] == [];
  }
}

/** What the scan of one chunk emits, proved against the split-at-line-feed reference. */
module LineLemmas {
  import opened Basics
  import opened LineScan

  // ---------------------------------------------------------------------------
  // The reference split

  /** Splitting at line-feeds loses nothing: joining the pieces gives the chunk back. */
  lemma {:induction false} SplitThenJoin(s: Bytes)
    ensures JoinLF(SplitLF(s)) == s
  {
    if s != [] {
      var rest := SplitLF(s[1..]);
      SplitThenJoin(s[1..]);
      if s[0] == LF {
        assert ([[]] + rest)[1..] == rest;
        assert s == [LF] + s[1..];
      } else if |rest| == 1 {
        assert s == [s[0]] + s[1..];
      } else {
        var pieces := [[s[0]] + rest[0]] + rest[1..];
        assert pieces[1..] == rest[1..];
        assert s == [s[0]] + s[1..];
      }
    }
  }

  lemma {:induction false} CountLFPositive(s: Bytes, j: nat)
    requires j < |s| && s[j] == LF
    ensures CountLF(s) > 0
  {
    if j > 0 {
      CountLFPositive(s[1..], j - 1);
    }
  }

  /** The split of `c[p..]` in terms of the first line-feed at or after `p`. */
  lemma {:induction false} SplitLFAt(c: Bytes, p: nat)
    requires p <= |c|
    ensures FirstLF(c, p).None? ==> SplitLF(c[p..]) == [c[p..]]
    ensures FirstLF(c, p).Some? ==>
      SplitLF(c[p..]) == [c[p..FirstLF(c, p).value]] + SplitLF(c[FirstLF(c, p).value + 1..])
    decreases |c| - p
  {
    if p < |c| {
      if c[p] == LF {
        SplitLFAtLF(c, p);
      } else {
        SplitLFAt(c, p + 1);
        match FirstLF(c, p + 1)
        case None => SplitLFAtByteNone(c, p);
        case Some(q) => SplitLFAtByteSome(c, p, q);
      }
    }
  }

  lemma SplitLFAtLF(c: Bytes, p: nat)
    requires p < |c| && c[p] == LF
    ensures FirstLF(c, p) == Some(p)
    ensures SplitLF(c[p..]) == [c[p..p]] + SplitLF(c[p + 1..])
  {
    assert c[p..][0] == LF && c[p..][1..] == c[p + 1..];
    SplitLFUnfold(c[p..]);
    assert c[p..p] == [];
  }

  lemma SplitLFAtByteNone(c: Bytes, p: nat)
    requires p < |c| && c[p] != LF && FirstLF(c, p + 1).None?
    requires SplitLF(c[p + 1..]) == [c[p + 1..]]
    ensures SplitLF(c[p..]) == [c[p..]]
  {
    assert c[p..][0] == c[p] && c[p..][1..] == c[p + 1..];
    SplitLFUnfold(c[p..]);
    PrependToFirstCons(c[p], c[p + 1..], []);
    assert [c[p]] + c[p + 1..] == c[p..];
  }

  lemma SplitLFAtByteSome(c: Bytes, p: nat, q: nat)
    requires p < q < |c| && c[p] != LF
    requires SplitLF(c[p + 1..]) == [c[p + 1..q]] + SplitLF(c[q + 1..])
    ensures SplitLF(c[p..]) == [c[p..q]] + SplitLF(c[q + 1..])
  {
    assert c[p..][0] == c[p] && c[p..][1..] == c[p + 1..];
    SplitLFUnfold(c[p..]);
    PrependToFirstCons(c[p], c[p + 1..q], SplitLF(c[q + 1..]));
    assert [c[p]] + c[p + 1..q] == c[p..q];
  }

  lemma StripCRsCons(x: Bytes, rest: seq<Bytes>, afterLF: bool)
    ensures StripCRs([x] + rest, afterLF) == [WithoutCR(x, afterLF)] + StripCRs(rest, true)
  {
    assert ([x] + rest)[1..] == rest;
  }

  /** The reference lines of `c[p..]` in terms of the first line-feed at or after `p`. */
  lemma TerminatedAt(c: Bytes, p: nat, afterLF: bool)
    requires p <= |c|
    ensures FirstLF(c, p).None? ==> Terminated(c, p, afterLF) == []
    ensures FirstLF(c, p).Some? ==>
      Terminated(c, p, afterLF)
        == [WithoutCR(c[p..FirstLF(c, p).value], afterLF)] + Terminated(c, FirstLF(c, p).value + 1, true)
  {
    SplitLFAt(c, p);
    match FirstLF(c, p)
    case None =>
    case Some(q) =>
      var tail := SplitLF(c[q + 1..]);
      ConsInit(c[p..q], tail);
      StripCRsCons(c[p..q], tail[..|tail| - 1], afterLF);
  }

  lemma DropLastIfCons(x: Bytes, rest: seq<Bytes>, drop: bool)
    requires drop ==> |rest| > 0
    ensures DropLastIf([x] + rest, drop) == [x] + DropLastIf(rest, drop)
  {
    if drop {
      assert ([x] + rest)[..|rest|] == [x] + rest[..|rest| - 1];
    }
  }

  // ---------------------------------------------------------------------------
  // The scan agrees with the reference

  /** Data phase at `p`: a final line-feed right after another one at or past `p` is not emitted. */
  predicate DropsFinalFrom(c: Bytes, p: nat)
  {
    p + 1 < |c| && c[|c| - 1] == LF && c[|c| - 2] == LF
  }

  /** NL phase at `k`: the final line-feed sits at `k` or directly after another one. */
  predicate DropsFinalAfterLF(c: Bytes, k: nat)
  {
    k < |c| && c[|c| - 1] == LF && (k == |c| - 1 || c[|c| - 2] == LF)
  }

  lemma {:induction false} FromDataLines(c: Bytes, p: nat)
    requires p <= |c|
    ensures FromData(c, p).lines == DropLastIf(Terminated(c, p, false), DropsFinalFrom(c, p))
    ensures FromData(c, p).phase
         == if p < |c| && c[|c| - 1] == LF && !DropsFinalFrom(c, p) then NL else Data
    decreases |c| - p, 0
  {
    TerminatedAt(c, p, false);
    match FirstLF(c, p)
    case None =>
    case Some(q) =>
      AfterLFLines(c, q + 1, p);
      assert DropsFinalAfterLF(c, q + 1) == DropsFinalFrom(c, p);
      var tail := Terminated(c, q + 1, true);
      if DropsFinalFrom(c, p) {
        TerminatedAt(c, q + 1, true);
        assert FirstLF(c, q + 1).Some?;
      }
      DropLastIfCons(c[p..q], tail, DropsFinalFrom(c, p));
  }

  lemma {:induction false} AfterLFLines(c: Bytes, k: nat, p: nat)
    requires k <= |c|
    ensures AfterLF(c, k, p).lines == DropLastIf(Terminated(c, k, true), DropsFinalAfterLF(c, k))
    ensures AfterLF(c, k, p).phase
         == if k == |c| || (c[|c| - 1] == LF && !DropsFinalAfterLF(c, k)) then NL else Data
    decreases |c| - k, 1
  {
    if k == |c| {
      TerminatedAt(c, k, true);
    } else if c[k] == CR {
      if k < |c| - 1 {
        SkippedCR(c, k);
        FromDataLines(c, k + 1);
      } else {
        TerminatedAt(c, k, true);
      }
    } else {
      KeptFirstByte(c, k);
      if k + 1 < |c| {
        FromDataLines(c, k);
      } else {
        TerminatedAt(c, k, true);
      }
    }
  }

  /** A carriage return after a line-feed: the reference lines are those from the next byte on. */
  lemma SkippedCR(c: Bytes, k: nat)
    requires k + 1 < |c| && c[k] == CR
    ensures Terminated(c, k, true) == Terminated(c, k + 1, false)
    ensures DropsFinalAfterLF(c, k) == DropsFinalFrom(c, k + 1)
  {
    TerminatedAt(c, k, true);
    TerminatedAt(c, k + 1, false);
    assert FirstLF(c, k) == FirstLF(c, k + 1);
    match FirstLF(c, k) {
      case None =>
      case Some(q) =>
        assert WithoutCR(c[k..q], true) == c[k + 1..q];
    }
  }

  /** Any other byte after a line-feed: nothing is stripped from the line it begins. */
  lemma KeptFirstByte(c: Bytes, k: nat)
    requires k < |c| && c[k] != CR
    ensures Terminated(c, k, true) == Terminated(c, k, false)
  {
    TerminatedAt(c, k, true);
    TerminatedAt(c, k, false);
  }

  /** The scan emits exactly the reference lines and ends in the reference phase. */
  lemma ScanMatchesLines(entry: Phase, c: Bytes)
    ensures Scan(entry, c).lines == Lines(entry, c)
    ensures Scan(entry, c).phase == EndPhase(entry, c)
  {
    match entry
    case Data => FromDataLines(c, 0);
    case NL => AfterLFLines(c, 0, 0);
  }

  // ---------------------------------------------------------------------------
  // Consequences for the emitted lines

  /** No piece of a split holds a line-feed. */
  lemma {:induction false} SplitLFHasNoLF(s: Bytes)
    ensures forall j :: 0 <= j < |SplitLF(s)| ==> LF !in SplitLF(s)[j]
    decreases |s|
  {
    if s != [] {
      SplitLFHasNoLF(s[1..]);
      var rest := SplitLF(s[1..]);
      if s[0] != LF {
        assert LF !in [s[0]] + rest[0];
      }
    }
  }

  lemma {:induction false} StripCRsKeepsNoLF(pieces: seq<Bytes>, afterLF: bool)
    requires forall j :: 0 <= j < |pieces| ==> LF !in pieces[j]
    ensures forall j :: 0 <= j < |StripCRs(pieces, afterLF)| ==> LF !in StripCRs(pieces, afterLF)[j]
    decreases |pieces|
  {
    if pieces != [] {
      StripCRsKeepsNoLF(pieces[1..], true);
      var r := StripCRs(pieces, afterLF);
      forall j | 0 <= j < |r| ensures LF !in r[j] {
        if j > 0 {
          assert r[j] == StripCRs(pieces[1..], true)[j - 1];
        } else {
          assert forall m :: 0 <= m < |r[0]| ==> r[0][m] in pieces[0];
        }
      }
    }
  }

  /** No emitted line contains a line-feed. */
  lemma ScanLinesHaveNoLF(entry: Phase, c: Bytes)
    ensures forall j :: 0 <= j < |Scan(entry, c).lines| ==> LF !in Scan(entry, c).lines[j]
  {
    ScanMatchesLines(entry, c);
    var pieces := SplitLF(c[0..]);
    SplitLFHasNoLF(c[0..]);
    StripCRsKeepsNoLF(pieces[..|pieces| - 1], entry == NL);
  }

  /**
   * One line per line-feed of the chunk, except that a final line-feed directly
   * after another line-feed yields none; so never more lines than line-feeds.
   */
  lemma ScanLineCount(entry: Phase, c: Bytes)
    ensures |Scan(entry, c).lines| == CountLF(c) - (if DropsFinal(entry, c) then 1 else 0)
    ensures |Scan(entry, c).lines| <= CountLF(c)
  {
    ScanMatchesLines(entry, c);
    assert c[0..] == c;
    if DropsFinal(entry, c) {
      CountLFPositive(c, |c| - 1);
    }
  }

  /** `line` is a contiguous run of the chunk that is immediately followed by a line-feed. */
  ghost predicate EndsAtLF(c: Bytes, line: Bytes)
  {
    exists a, b :: 0 <= a <= b < |c| && c[b] == LF && c[a..b] == line
  }

  lemma {:induction false} FromDataSlices(c: Bytes, p: nat)
    requires p <= |c|
    ensures forall j :: 0 <= j < |FromData(c, p).lines| ==> EndsAtLF(c, FromData(c, p).lines[j])
    decreases |c| - p, 0
  {
    match FirstLF(c, p)
    case None =>
    case Some(q) =>
      AfterLFSlices(c, q + 1, p);
      assert EndsAtLF(c, c[p..q]);
      var lines := FromData(c, p).lines;
      var rest := AfterLF(c, q + 1, p).lines;
      assert lines == [c[p..q]] + rest;
      forall j | 0 <= j < |lines| ensures EndsAtLF(c, lines[j]) {
        if j > 0 {
          assert lines[j] == rest[j - 1];
        }
      }
  }

  lemma {:induction false} AfterLFSlices(c: Bytes, k: nat, p: nat)
    requires k <= |c|
    ensures forall j :: 0 <= j < |AfterLF(c, k, p).lines| ==> EndsAtLF(c, AfterLF(c, k, p).lines[j])
    decreases |c| - k, 1
  {
    if k < |c| {
      if c[k] == CR {
        if k < |c| - 1 {
          FromDataSlices(c, k + 1);
        }
      } else if k + 1 < |c| {
        FromDataSlices(c, k);
      }
    }
  }

  /** Every emitted line is a run of the chunk that ends right before one of its line-feeds. */
  lemma ScanLinesAreSlices(entry: Phase, c: Bytes)
    ensures forall j :: 0 <= j < |Scan(entry, c).lines| ==> EndsAtLF(c, Scan(entry, c).lines[j])
  {
    match entry
    case Data => FromDataSlices(c, 0);
    case NL => AfterLFSlices(c, 0, 0);
  }

  // ---------------------------------------------------------------------------
  // Chunk boundaries

  /** `b` glued to the front of the first piece. */
  function PrependToFirst(b: Byte, pieces: seq<Bytes>): (r: seq<Bytes>)
    requires |pieces| > 0
  {
    [[b] + pieces[0]] + pieces[1..]
  }

  lemma SplitLFUnfold(s: Bytes)
    requires |s| > 0
    ensures SplitLF(s) == if s[0] == LF then [[]] + SplitLF(s[1..]) else PrependToFirst(s[0], SplitLF(s[1..]))
  {
  }

  lemma PrependToFirstCons(b: Byte, first: Bytes, rest: seq<Bytes>)
    ensures PrependToFirst(b, [first] + rest) == [[b] + first] + rest
  {
    assert ([first] + rest)[1..] == rest;
  }

  lemma PrependToFirstAppend(b: Byte, a: seq<Bytes>, z: seq<Bytes>)
    requires |a| > 0
    ensures PrependToFirst(b, a + z) == PrependToFirst(b, a) + z
  {
    assert (a + z)[1..] == a[1..] + z;
  }

  lemma PrependToFirstInit(b: Byte, a: seq<Bytes>)
    requires |a| >= 2
    ensures PrependToFirst(b, a)[..|a| - 1] == PrependToFirst(b, a[..|a| - 1])
  {
    assert a[..|a| - 1][1..] == a[1..|a| - 1];
  }

  lemma {:induction false} SplitLFAppend(x: Bytes, y: Bytes)
    requires |x| > 0 && x[|x| - 1] == LF
    ensures SplitLF(x + y) == SplitLF(x)[..|SplitLF(x)| - 1] + SplitLF(y)
    decreases |x|
  {
    if |x| == 1 {
      SplitLFAppendLast(x, y);
    } else {
      assert x[1..][|x| - 2] == LF;
      SplitLFAppend(x[1..], y);
      if x[0] == LF {
        SplitLFAppendLF(x, y);
      } else {
        SplitLFAppendByte(x, y);
      }
    }
  }

  lemma SplitLFAppendLast(x: Bytes, y: Bytes)
    requires x == [LF]
    ensures SplitLF(x + y) == SplitLF(x)[..|SplitLF(x)| - 1] + SplitLF(y)
  {
    assert (x + y)[0] == LF && (x + y)[1..] == y;
    SplitLFUnfold(x);
    SplitLFUnfold(x + y);
    assert x[1..] == [];
  }

  lemma SplitLFAppendLF(x: Bytes, y: Bytes)
    requires |x| > 1 && x[0] == LF
    requires SplitLF(x[1..] + y) == SplitLF(x[1..])[..|SplitLF(x[1..])| - 1] + SplitLF(y)
    ensures SplitLF(x + y) == SplitLF(x)[..|SplitLF(x)| - 1] + SplitLF(y)
  {
    assert (x + y)[0] == LF && (x + y)[1..] == x[1..] + y;
    SplitLFUnfold(x);
    SplitLFUnfold(x + y);
    ConsInitAppend([], SplitLF(x[1..]), SplitLF(y));
  }

  lemma ConsInit(h: Bytes, a: seq<Bytes>)
    requires |a| > 0
    ensures ([h] + a)[..|a|] == [h] + a[..|a| - 1]
  {
  }

  lemma ConsInitAppend(h: Bytes, a: seq<Bytes>, z: seq<Bytes>)
    requires |a| > 0
    ensures [h] + (a[..|a| - 1] + z) == ([h] + a)[..|a|] + z
  {
    ConsInit(h, a);
  }

  lemma SplitLFAppendByte(x: Bytes, y: Bytes)
    requires |x| > 1 && x[0] != LF && x[|x| - 1] == LF
    requires SplitLF(x[1..] + y) == SplitLF(x[1..])[..|SplitLF(x[1..])| - 1] + SplitLF(y)
    ensures SplitLF(x + y) == SplitLF(x)[..|SplitLF(x)| - 1] + SplitLF(y)
  {
    assert (x + y)[0] == x[0] && (x + y)[1..] == x[1..] + y;
    SplitLFUnfold(x);
    SplitLFUnfold(x + y);
    var st := SplitLF(x[1..]);
    CountLFPositive(x[1..], |x| - 2);
    PrependToFirstAppend(x[0], st[..|st| - 1], SplitLF(y));
    PrependToFirstInit(x[0], st);
  }

  lemma {:induction false} StripCRsAppend(first: seq<Bytes>, second: seq<Bytes>, afterLF: bool)
    requires |first| > 0
    ensures StripCRs(first + second, afterLF) == StripCRs(first, afterLF) + StripCRs(second, true)
    decreases |first|
  {
    StripCRsCons(first[0], first[1..] + second, afterLF);
    assert first + second == [first[0]] + (first[1..] + second);
    if |first| == 1 {
      assert first == [first[0]] + [];
      StripCRsCons(first[0], [], afterLF);
    } else {
      StripCRsAppend(first[1..], second, true);
      assert first == [first[0]] + first[1..];
      StripCRsCons(first[0], first[1..], afterLF);
    }
  }

  lemma DropLastIfAppend(first: seq<Bytes>, second: seq<Bytes>, drop: bool)
    requires drop ==> |second| > 0
    ensures DropLastIf(first + second, drop) == first + DropLastIf(second, drop)
  {
    if drop {
      assert (first + second)[..|first + second| - 1] == first + second[..|second| - 1];
    }
  }

  /**
   * A chunk boundary right after a line-feed whose line was emitted changes
   * nothing: the second call, entered in `NL`, emits what the single call would
   * have emitted after that line-feed. In particular a carriage return that
   * begins the next chunk is still skipped.
   */
  lemma ResumeAfterLF(entry: Phase, x: Bytes, y: Bytes)
    requires Scan(entry, x).phase == NL
    ensures Scan(entry, x + y).lines == Scan(entry, x).lines + Scan(NL, y).lines
    ensures Scan(entry, x + y).phase == Scan(NL, y).phase
  {
    ScanMatchesLines(entry, x);
    ScanMatchesLines(entry, x + y);
    ScanMatchesLines(NL, y);
    if x == [] {
      assert x + y == y;
    } else {
      LinesAppend(entry, x, y);
    }
  }

  /** The reference form of `ResumeAfterLF`. */
  lemma LinesAppend(entry: Phase, x: Bytes, y: Bytes)
    requires |x| > 0 && x[|x| - 1] == LF && !DropsFinal(entry, x)
    ensures Lines(entry, x + y) == Lines(entry, x) + Lines(NL, y)
    ensures EndPhase(entry, x + y) == EndPhase(NL, y)
  {
    TerminatedAppend(x, y, entry == NL);
    DropsFinalAppend(entry, x, y);
    if DropsFinal(NL, y) {
      CountLFPositive(y, |y| - 1);
      assert y[0..] == y;
    }
    DropLastIfAppend(Terminated(x, 0, entry == NL), Terminated(y, 0, true), DropsFinal(NL, y));
  }

  lemma TerminatedAppend(x: Bytes, y: Bytes, afterLF: bool)
    requires |x| > 0 && x[|x| - 1] == LF
    ensures Terminated(x + y, 0, afterLF) == Terminated(x, 0, afterLF) + Terminated(y, 0, true)
  {
    assert x[0..] == x && (x + y)[0..] == x + y && y[0..] == y;
    SplitLFAppend(x, y);
    CountLFPositive(x, |x| - 1);
    var sx, sy := SplitLF(x), SplitLF(y);
    assert SplitLF(x + y)[..|SplitLF(x + y)| - 1] == sx[..|sx| - 1] + sy[..|sy| - 1];
    StripCRsAppend(sx[..|sx| - 1], sy[..|sy| - 1], afterLF);
  }

  lemma DropsFinalAppend(entry: Phase, x: Bytes, y: Bytes)
    requires |x| > 0 && x[|x| - 1] == LF && !DropsFinal(entry, x)
    ensures DropsFinal(entry, x + y) == DropsFinal(NL, y)
    ensures |x + y| > 0 && (x + y)[|x + y| - 1] == if y == [] then LF else y[|y| - 1]
  {
    if y == [] {
      assert x + y == x;
    } else {
      assert (x + y)[|x + y| - 1] == y[|y| - 1];
      assert |y| >= 2 ==> (x + y)[|x + y| - 2] == y[|y| - 2];
      assert |y| == 1 ==> (x + y)[|x + y| - 2] == x[|x| - 1];
    }
  }
}

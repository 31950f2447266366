/** What the chunks of a message are: an exact decomposition of its text, bounded in size and number. */
module ChunkerProof {
  import opened Arithmetic
  import opened Text
  import opened Chunker

  predicate OnlyNewlines(s: Runes) {
    forall i :: 0 <= i < |s| ==> s[i] == NL
  }

  /** Each chunk followed by the gap after it. */
  function Laid(chunks: seq<Runes>, gaps: seq<Runes>): Runes
    requires |gaps| == |chunks|
  {
    if chunks == [] then []
    else
      var n := |chunks| - 1;
      Laid(chunks[..n], gaps[..n]) + chunks[n] + gaps[n]
  }

  function Concat(parts: seq<Runes>): Runes {
    if parts == [] then [] else Concat(parts[..|parts| - 1]) + parts[|parts| - 1]
  }

  // ---------------------------------------------------------------- the parts of one line

  lemma {:induction false} PartsFirst(p: Runes, parts: seq<Runes>, maxLen: nat)
    ensures FullParts([p] + parts, maxLen) == (if |p| == maxLen then [p] else []) + FullParts(parts, maxLen)
    ensures ShortParts([p] + parts, maxLen) == (if |p| == maxLen then [] else p) + ShortParts(parts, maxLen)
  {
    var all := [p] + parts;
    if parts != [] {
      var n := |parts| - 1;
      assert all[..n + 1] == [p] + parts[..n];
      PartsFirst(p, parts[..n], maxLen);
    } else {
      assert all[..0] == [];
    }
  }

  lemma {:induction false} ConcatFirst(p: Runes, parts: seq<Runes>)
    ensures Concat([p] + parts) == p + Concat(parts)
  {
    var all := [p] + parts;
    if parts != [] {
      var n := |parts| - 1;
      assert all[..n + 1] == [p] + parts[..n];
      ConcatFirst(p, parts[..n]);
    } else {
      assert all[..0] == [];
    }
  }

  predicate AllOfLength(parts: seq<Runes>, n: nat) {
    forall i :: 0 <= i < |parts| ==> |parts[i]| == n
  }

  predicate CutInto(line: Runes, full: seq<Runes>, rest: Runes, maxLen: nat) {
    line == Concat(full) + rest && |rest| < maxLen && AllOfLength(full, maxLen)
  }

  lemma PrependFull(p: Runes, line: Runes, full: seq<Runes>, rest: Runes, maxLen: nat)
    requires CutInto(line, full, rest, maxLen) && |p| == maxLen
    ensures CutInto(p + line, [p] + full, rest, maxLen)
  {
    ConcatFirst(p, full);
  }

  lemma {:induction false} CutLine(line: Runes, maxLen: nat)
    requires maxLen > 0
    ensures var pieces := CutPieces(line, maxLen);
            && CutInto(line, FullParts(pieces, maxLen), ShortParts(pieces, maxLen), maxLen)
            && (|line| > maxLen ==> FullParts(pieces, maxLen) != [])
    decreases |line|
  {
    hide FullParts, ShortParts, CutInto;
    if |line| > maxLen {
      var p, tail := line[..maxLen], line[maxLen..];
      var pieces := CutPieces(tail, maxLen);
      CutLine(tail, maxLen);
      PartsFirst(p, pieces, maxLen);
      PrependFull(p, tail, FullParts(pieces, maxLen), ShortParts(pieces, maxLen), maxLen);
      assert line == p + tail;
      assert ShortParts([p] + pieces, maxLen) == ShortParts(pieces, maxLen);
    } else {
      CutShort(line, maxLen);
    }
  }

  lemma CutShort(line: Runes, maxLen: nat)
    requires |line| <= maxLen && maxLen > 0
    ensures var pieces := CutPieces(line, maxLen);
            CutInto(line, FullParts(pieces, maxLen), ShortParts(pieces, maxLen), maxLen)
  {
    OnePart(line, maxLen);
  }

  lemma OnePart(line: Runes, maxLen: nat)
    ensures FullParts([line], maxLen) == if |line| == maxLen then [line] else []
    ensures ShortParts([line], maxLen) == if |line| == maxLen then [] else line
    ensures Concat([line]) == line
  {
    assert [line][..0] == [];
  }

  /** A line is its full parts in order followed by a shorter rest. */
  lemma LineParts(line: Runes, maxLen: nat)
    requires maxLen > 0
    ensures var full, rest := FullParts(HardParts(line, maxLen), maxLen), ShortParts(HardParts(line, maxLen), maxLen);
            && CutInto(line, full, rest, maxLen)
            && (|line| > maxLen ==> full != [])
            && (|line| < maxLen ==> full == [] && rest == line)
            && (|line| == maxLen ==> full == [line] && rest == [])
  {
    CutLine(line, maxLen);
    OnePart(line, maxLen);
  }

  // ---------------------------------------------------------------- the decomposition

  /** What holds of a text, its chunks so far and the builder: lead and gaps are newlines only, a
    gap is empty only after a chunk of maxLen runes, and every chunk is sized and starts with text. */
  ghost predicate Decomposed(text: Runes, st: State, lead: Runes, gaps: seq<Runes>, maxLen: nat) {
    && |gaps| == |st.chunks|
    && text == lead + Laid(st.chunks, gaps) + st.current
    && OnlyNewlines(lead)
    && (forall i :: 0 <= i < |gaps| ==> OnlyNewlines(gaps[i]))
    && (forall i :: 0 <= i < |gaps| && gaps[i] == [] ==> FullPiece(st.chunks[i], maxLen))
    && (forall i :: 0 <= i < |gaps| ==> ProperChunk(st.chunks[i], maxLen))
    && (st.current != [] ==> ProperChunk(st.current, maxLen))
  }

  /** At x is a newline, and up to y is the line after it or a beginning of it. */
  predicate LineAfter(chunk: Runes, x: nat, y: nat) {
    x < y <= |chunk| && chunk[x] == NL && forall z :: x < z < y ==> chunk[z] != NL
  }

  /** Every line of a chunk but the first found room: the octets before its newline, one for that newline and
    the runes of the line are at most maxLen. */
  ghost predicate Fits(chunk: Runes, maxLen: nat) {
    forall x: nat, y: nat :: LineAfter(chunk, x, y) ==> Bytes(chunk[..x]) + 1 + (y - x - 1) <= maxLen
  }

  ghost predicate ProperChunk(chunk: Runes, maxLen: nat) {
    1 <= |chunk| <= maxLen && chunk[0] != NL && Fits(chunk, maxLen)
  }

  /** A piece of maxLen runes of one line. */
  predicate FullPiece(chunk: Runes, maxLen: nat) {
    |chunk| == maxLen && NL !in chunk
  }

  lemma OneLineFits(chunk: Runes, maxLen: nat)
    requires NL !in chunk
    ensures Fits(chunk, maxLen)
  {
  }

  lemma LongerFits(chunk: Runes, line: Runes, maxLen: nat)
    requires Fits(chunk, maxLen) && NL !in line && Bytes(chunk) + 1 + |line| <= maxLen
    ensures Fits(chunk + [NL] + line, maxLen)
  {
    var c, n := chunk + [NL] + line, |chunk|;
    assert c[n] == NL && forall z :: 0 <= z < n ==> c[z] == chunk[z];
    forall x: nat, y: nat | LineAfter(c, x, y)
      ensures Bytes(c[..x]) + 1 + (y - x - 1) <= maxLen
    {
      if x < n {
        assert c[..x] == chunk[..x];
        assert LineAfter(chunk, x, y);
      } else {
        assert forall z :: n < z < |c| ==> c[z] == line[z - n - 1];
        assert c[..n] == chunk;
      }
    }
  }

  lemma {:induction false} BytesAppend(s: Runes, t: Runes)
    ensures Bytes(s + t) == Bytes(s) + Bytes(t)
  {
    if t == [] {
      assert s + t == s;
    } else {
      var u := t[..|t| - 1];
      assert (s + t)[..|s + t| - 1] == s + u;
      BytesAppend(s, u);
    }
  }

  lemma {:induction false} BytesAtLeastRunes(s: Runes)
    ensures |s| <= Bytes(s)
  {
    if s != [] { BytesAtLeastRunes(s[..|s| - 1]); }
  }

  lemma LaidAppend(chunks: seq<Runes>, gaps: seq<Runes>, c: Runes, g: Runes)
    requires |gaps| == |chunks|
    ensures Laid(chunks + [c], gaps + [g]) == Laid(chunks, gaps) + c + g
  {
    var n := |chunks|;
    assert (chunks + [c])[..n] == chunks && (gaps + [g])[..n] == gaps;
  }

  function Empties(n: nat): (r: seq<Runes>)
    ensures |r| == n && forall i :: 0 <= i < n ==> r[i] == []
  {
    seq(n, i => [])
  }

  /** Chunks laid with no gap are their concatenation. */
  lemma {:induction false} LaidTight(chunks: seq<Runes>, gaps: seq<Runes>, parts: seq<Runes>)
    requires |gaps| == |chunks|
    ensures Laid(chunks + parts, gaps + Empties(|parts|)) == Laid(chunks, gaps) + Concat(parts)
  {
    var n := |parts|;
    if n == 0 {
      assert chunks + parts == chunks && gaps + Empties(0) == gaps;
    } else {
      LaidTight(chunks, gaps, parts[..n - 1]);
      LaidAppend(chunks + parts[..n - 1], gaps + Empties(n - 1), parts[n - 1], []);
      assert chunks + parts == (chunks + parts[..n - 1]) + [parts[n - 1]];
      assert gaps + Empties(n) == (gaps + Empties(n - 1)) + [[]];
    }
  }

  /** The newline after an empty builder joins the gap before it. */
  lemma Widen(text: Runes, st: State, lead: Runes, gaps: seq<Runes>, maxLen: nat)
    returns (lead': Runes, gaps': seq<Runes>)
    requires Decomposed(text, st, lead, gaps, maxLen) && st.current == []
    ensures Decomposed(text + [NL], st, lead', gaps', maxLen)
    ensures if gaps == [] then gaps' == [] else lead' == lead && gaps' == gaps[..|gaps| - 1] + [gaps[|gaps| - 1] + [NL]]
  {
    hide Fits, FullPiece;
    var n := |gaps|;
    if n == 0 {
      lead', gaps' := lead + [NL], gaps;
    } else {
      lead', gaps' := lead, gaps[..n - 1] + [gaps[n - 1] + [NL]];
      LaidAppend(st.chunks[..n - 1], gaps[..n - 1], st.chunks[n - 1], gaps[n - 1] + [NL]);
      assert st.chunks[..n - 1] + [st.chunks[n - 1]] == st.chunks;
    }
  }

  /** Flushing moves a nonempty builder to the chunks; the newline that follows is its gap. */
  lemma FlushThenNewline(text: Runes, st: State, lead: Runes, gaps: seq<Runes>, maxLen: nat)
    returns (lead': Runes, gaps': seq<Runes>)
    requires Decomposed(text, st, lead, gaps, maxLen)
    ensures Decomposed(text + [NL], Flush(st), lead', gaps', maxLen)
    ensures if st.current != [] then lead' == lead && gaps' == gaps + [[NL]]
            else if gaps == [] then gaps' == []
            else lead' == lead && gaps' == gaps[..|gaps| - 1] + [gaps[|gaps| - 1] + [NL]]
  {
    hide Fits, FullPiece;
    if st.current == [] {
      lead', gaps' := Widen(text, st, lead, gaps, maxLen);
    } else {
      lead', gaps' := lead, gaps + [[NL]];
      LaidAppend(st.chunks, gaps, st.current, [NL]);
    }
  }

  /** Text of the lines so far, before the next line is appended. */
  function Ended(lines: seq<Runes>): Runes {
    if lines == [] then [] else Join(lines, NL) + [NL]
  }

  lemma {:induction false} JoinAppend(lines: seq<Runes>, line: Runes)
    ensures Join(lines + [line], NL) == Ended(lines) + line
  {
    if lines == [] {
      assert lines + [line] == [line];
    } else {
      var all := lines + [line];
      assert all[1..] == lines[1..] + [line];
      JoinAppend(lines[1..], line);
      if |lines| == 1 {
        assert Join(all, NL) == lines[0] + [NL] + Join(all[1..], NL);
      }
    }
  }

  /** A line put after the flushed chunks. */
  lemma PlaceLine(text: Runes, st: State, line: Runes, lead: Runes, gaps: seq<Runes>, maxLen: nat)
    returns (gaps': seq<Runes>)
    requires maxLen > 0 && NL !in line && st.current == []
    requires Decomposed(text, st, lead, gaps, maxLen)
    ensures var parts := HardParts(line, maxLen);
            && Decomposed(text + line, State(st.chunks + FullParts(parts, maxLen), ShortParts(parts, maxLen)), lead, gaps', maxLen)
            && gaps' == gaps + Empties(|FullParts(parts, maxLen)|)
  {
    hide HardParts, FullParts, ShortParts, Laid, Concat, Fits;
    var full, rest := FullParts(HardParts(line, maxLen), maxLen), ShortParts(HardParts(line, maxLen), maxLen);
    LineParts(line, maxLen);
    ConcatHolds(full, rest, line);
    gaps' := gaps + Empties(|full|);
    LaidTight(st.chunks, gaps, full);
    var chunks := st.chunks + full;
    forall i | 0 <= i < |chunks|
      ensures OnlyNewlines(gaps'[i]) && ProperChunk(chunks[i], maxLen) && (gaps'[i] == [] ==> FullPiece(chunks[i], maxLen))
    {
      if i >= |gaps| {
        assert chunks[i] == full[i - |gaps|] && gaps'[i] == [];
        OneLineFits(chunks[i], maxLen);
      }
    }
    OneLineFits(rest, maxLen);
    assert text + line == lead + Laid(chunks, gaps') + rest;
  }

  /** The parts of a newline-free line are newline-free. */
  lemma {:induction false} ConcatHolds(full: seq<Runes>, rest: Runes, line: Runes)
    requires line == Concat(full) + rest && NL !in line
    ensures NL !in rest && forall i :: 0 <= i < |full| ==> NL !in full[i]
  {
    assert forall k :: 0 <= k < |rest| ==> rest[k] == line[|Concat(full)| + k];
    if full != [] {
      var n := |full| - 1;
      ConcatHolds(full[..n], full[n] + rest, line);
      forall i | 0 <= i < |full|
        ensures NL !in full[i]
      {
        if i < n {
          assert full[i] == full[..n][i];
        } else {
          assert forall k :: 0 <= k < |full[n]| ==> full[n][k] == (full[n] + rest)[k];
        }
      }
    }
  }

  /** The builder grows by a line that fits. */
  lemma ExtendCurrent(text: Runes, st: State, line: Runes, lead: Runes, gaps: seq<Runes>, maxLen: nat)
    requires Decomposed(text, st, lead, gaps, maxLen) && st.current != []
    requires CandidateLength(st.current, line) <= maxLen && NL !in line
    ensures Decomposed(text + [NL] + line, st.(current := st.current + [NL] + line), lead, gaps, maxLen)
  {
    hide Fits, FullPiece;
    BytesAtLeastRunes(st.current);
    BytesZero(st.current);
    LongerFits(st.current, line, maxLen);
  }

  lemma {:induction false} LinesDecompose(lines: seq<Runes>, maxLen: nat)
    returns (lead: Runes, gaps: seq<Runes>)
    requires maxLen > 0 && forall i :: 0 <= i < |lines| ==> NL !in lines[i]
    ensures Decomposed(Join(lines, NL), AddLines(lines, maxLen), lead, gaps, maxLen)
    ensures Greedy(Join(lines, NL), AddLines(lines, maxLen).chunks, lead, gaps, maxLen)
  {
    if lines == [] {
      lead, gaps := [], [];
    } else {
      hide HardParts, FullParts, ShortParts, Decomposed, CandidateLength, Greedy;
      var n := |lines| - 1;
      var init, line := lines[..n], lines[n];
      assert lines == init + [line];
      lead, gaps := LinesDecompose(init, maxLen);
      JoinAppend(init, line);
      var st := AddLines(init, maxLen);
      lead, gaps := NextLine(init, st, line, lead, gaps, maxLen);
    }
  }

  lemma NextLine(init: seq<Runes>, st: State, line: Runes, lead0: Runes, gaps0: seq<Runes>, maxLen: nat)
    returns (lead: Runes, gaps: seq<Runes>)
    requires maxLen > 0 && NL !in line && (init == [] ==> st == State([], []))
    requires Decomposed(Join(init, NL), st, lead0, gaps0, maxLen)
    requires Greedy(Join(init, NL), st.chunks, lead0, gaps0, maxLen)
    ensures Decomposed(Ended(init) + line, AddLine(st, line, maxLen), lead, gaps, maxLen)
    ensures Greedy(Ended(init) + line, AddLine(st, line, maxLen).chunks, lead, gaps, maxLen)
  {
    hide HardParts, FullParts, ShortParts, Greedy, Fits, FullPiece;
    lead, gaps := lead0, gaps0;
    var text, before := Ended(init), Join(init, NL);
    if CandidateLength(st.current, line) > maxLen {
      if init != [] {
        lead, gaps := FlushThenNewline(before, st, lead, gaps, maxLen);
        GreedyFlush(before, st, line, lead0, gaps0, lead, gaps, maxLen);
      } else {
        NoGapsGreedy(text + line, lead, maxLen);
      }
      GreedyTight(text + line, Flush(st).chunks, lead, gaps, FullParts(HardParts(line, maxLen), maxLen), maxLen);
      gaps := PlaceLine(text, Flush(st), line, lead, gaps, maxLen);
    } else if st.current != [] {
      ExtendCurrent(before, st, line, lead, gaps, maxLen);
      GreedyKeeps(before, st.chunks, line, lead, gaps, maxLen);
    } else {
      if init != [] {
        lead, gaps := Widen(before, st, lead, gaps, maxLen);
        GreedyWiden(before, st, line, lead0, gaps0, lead, gaps, maxLen);
      } else {
        NoGapsGreedy(text + line, lead, maxLen);
      }
      assert Decomposed(text, st, lead, gaps, maxLen);
      OneLineFits(line, maxLen);
    }
  }

  // ---------------------------------------------------------------- a chunk ends only where it has to

  /** The text up to its first newline. */
  function FirstLine(s: Runes): Runes {
    if s == [] || s[0] == NL then [] else [s[0]] + FirstLine(s[1..])
  }

  /** Where chunk i ends in the text. */
  function EndOf(chunks: seq<Runes>, lead: Runes, gaps: seq<Runes>, i: nat): nat
    requires |gaps| == |chunks| && i < |chunks|
  {
    |lead| + |Laid(chunks[..i], gaps[..i])| + |chunks[i]|
  }

  /** The newline at e begins a line that did not fit after the chunk that ends there. */
  predicate NoRoom(text: Runes, chunk: Runes, e: nat, maxLen: nat) {
    e < |text| && text[e] == NL && Bytes(chunk) + 1 + |FirstLine(text[e + 1..])| > maxLen
  }

  /** Every chunk with a newline after it ended there because the next line of the text found no room. */
  ghost predicate Greedy(text: Runes, chunks: seq<Runes>, lead: Runes, gaps: seq<Runes>, maxLen: nat) {
    |gaps| == |chunks| &&
    forall i :: 0 <= i < |chunks| && gaps[i] != [] ==> NoRoom(text, chunks[i], EndOf(chunks, lead, gaps, i), maxLen)
  }

  lemma {:induction false} FirstLineKeeps(s: Runes, more: Runes)
    ensures FirstLine(s + [NL] + more) == FirstLine(s)
  {
    var t := s + [NL] + more;
    if s != [] && s[0] != NL {
      assert t[1..] == s[1..] + [NL] + more;
      FirstLineKeeps(s[1..], more);
    }
  }

  lemma {:induction false} FirstLineWhole(s: Runes)
    requires NL !in s
    ensures FirstLine(s) == s
  {
    if s != [] { FirstLineWhole(s[1..]); }
  }

  lemma NoRoomKeeps(text: Runes, chunk: Runes, e: nat, line: Runes, maxLen: nat)
    requires NoRoom(text, chunk, e, maxLen)
    ensures NoRoom(text + [NL] + line, chunk, e, maxLen)
  {
    FirstLineKeeps(text[e + 1..], line);
    assert (text + [NL] + line)[e + 1..] == text[e + 1..] + [NL] + line;
  }

  lemma NoRoomAtEnd(text: Runes, chunk: Runes, line: Runes, maxLen: nat)
    requires NL !in line && Bytes(chunk) + 1 + |line| > maxLen
    ensures NoRoom(text + [NL] + line, chunk, |text|, maxLen)
  {
    FirstLineWhole(line);
    assert (text + [NL] + line)[|text| + 1..] == line;
  }

  lemma GreedyKeeps(text: Runes, chunks: seq<Runes>, line: Runes, lead: Runes, gaps: seq<Runes>, maxLen: nat)
    requires Greedy(text, chunks, lead, gaps, maxLen)
    ensures Greedy(text + [NL] + line, chunks, lead, gaps, maxLen)
  {
    hide NoRoom, EndOf;
    forall i | 0 <= i < |chunks| && gaps[i] != []
      ensures NoRoom(text + [NL] + line, chunks[i], EndOf(chunks, lead, gaps, i), maxLen)
    {
      NoRoomKeeps(text, chunks[i], EndOf(chunks, lead, gaps, i), line, maxLen);
    }
  }

  lemma NoGapsGreedy(text: Runes, lead: Runes, maxLen: nat)
    ensures Greedy(text, [], lead, [], maxLen)
  {
  }

  /** Ends do not move when chunks are added or the last gap grows. */
  lemma EndStays(chunks: seq<Runes>, gaps: seq<Runes>, chunks': seq<Runes>, gaps': seq<Runes>, lead: Runes, i: nat)
    requires |gaps| == |chunks| && |gaps'| == |chunks'| && i < |chunks| && chunks <= chunks' && gaps[..i] <= gaps'
    ensures EndOf(chunks', lead, gaps', i) == EndOf(chunks, lead, gaps, i)
  {
    assert chunks'[..i] == chunks[..i] && gaps'[..i] == gaps[..i];
  }

  lemma GreedyTight(text: Runes, chunks: seq<Runes>, lead: Runes, gaps: seq<Runes>, full: seq<Runes>, maxLen: nat)
    requires Greedy(text, chunks, lead, gaps, maxLen)
    ensures Greedy(text, chunks + full, lead, gaps + Empties(|full|), maxLen)
  {
    hide NoRoom, EndOf;
    var c, g := chunks + full, gaps + Empties(|full|);
    forall i | 0 <= i < |c| && g[i] != []
      ensures NoRoom(text, c[i], EndOf(c, lead, g, i), maxLen)
    {
      EndStays(chunks, gaps, c, g, lead, i);
    }
  }

  /** With an empty builder and no gap after the last chunk, the text ends with that chunk. */
  lemma EndOfLast(text: Runes, chunks: seq<Runes>, lead: Runes, gaps: seq<Runes>)
    requires |gaps| == |chunks| > 0 && gaps[|gaps| - 1] == [] && text == lead + Laid(chunks, gaps)
    ensures EndOf(chunks, lead, gaps, |chunks| - 1) == |text|
  {
  }

  /** The newline that follows the last chunk, when the builder is empty. */
  lemma GreedyWiden(text: Runes, st: State, line: Runes, lead: Runes, gaps: seq<Runes>, lead': Runes, gaps': seq<Runes>, maxLen: nat)
    requires Decomposed(text, st, lead, gaps, maxLen) && st.current == [] && NL !in line
    requires Greedy(text, st.chunks, lead, gaps, maxLen)
    requires if gaps == [] then gaps' == [] else lead' == lead && gaps' == gaps[..|gaps| - 1] + [gaps[|gaps| - 1] + [NL]]
    ensures Greedy(text + [NL] + line, st.chunks, lead', gaps', maxLen)
  {
    hide NoRoom, ProperChunk, OnlyNewlines, Bytes, Laid, EndOf;
    GreedyKeeps(text, st.chunks, line, lead, gaps, maxLen);
    var n, c := |gaps| - 1, st.chunks;
    forall i | 0 <= i < |c| && gaps'[i] != []
      ensures NoRoom(text + [NL] + line, c[i], EndOf(c, lead', gaps', i), maxLen)
    {
      EndStays(c, gaps, c, gaps', lead, i);
      if gaps[i] == [] {
        assert i == n && text == lead + Laid(c, gaps);
        EndOfLast(text, c, lead, gaps);
        BytesAtLeastRunes(c[n]);
        NoRoomAtEnd(text, c[n], line, maxLen);
      }
    }
  }

  /** The newline and the line that made the builder be flushed. */
  lemma GreedyFlush(text: Runes, st: State, line: Runes, lead: Runes, gaps: seq<Runes>, lead': Runes, gaps': seq<Runes>, maxLen: nat)
    requires Decomposed(text, st, lead, gaps, maxLen) && NL !in line && CandidateLength(st.current, line) > maxLen
    requires Greedy(text, st.chunks, lead, gaps, maxLen)
    requires if st.current != [] then lead' == lead && gaps' == gaps + [[NL]]
             else if gaps == [] then gaps' == []
             else lead' == lead && gaps' == gaps[..|gaps| - 1] + [gaps[|gaps| - 1] + [NL]]
    ensures Greedy(text + [NL] + line, Flush(st).chunks, lead', gaps', maxLen)
  {
    hide NoRoom, ProperChunk, OnlyNewlines, Bytes;
    if st.current == [] {
      GreedyWiden(text, st, line, lead, gaps, lead', gaps', maxLen);
    } else {
      var c, n := Flush(st).chunks, |gaps|;
      GreedyKeeps(text, st.chunks, line, lead, gaps, maxLen);
      BytesZero(st.current);
      NoRoomAtEnd(text, st.current, line, maxLen);
      assert c[..n] == st.chunks && gaps'[..n] == gaps;
      forall i | 0 <= i < |c| && gaps'[i] != []
        ensures NoRoom(text + [NL] + line, c[i], EndOf(c, lead', gaps', i), maxLen)
      {
        if i < n {
          EndStays(st.chunks, gaps, c, gaps', lead, i);
        } else {
          assert EndOf(c, lead, gaps', n) == |text|;
        }
      }
    }
  }

  ghost predicate Decomposes(text: Runes, chunks: seq<Runes>, lead: Runes, gaps: seq<Runes>, maxLen: nat) {
    && |gaps| == |chunks|
    && text == lead + Laid(chunks, gaps)
    && OnlyNewlines(lead)
    && (forall i :: 0 <= i < |chunks| ==> OnlyNewlines(gaps[i]) && ProperChunk(chunks[i], maxLen))
    && (forall i :: 0 <= i < |chunks| - 1 && gaps[i] == [] ==> FullPiece(chunks[i], maxLen))
    && Greedy(text, chunks, lead, gaps, maxLen)
  }

  /** The last flush leaves no gap after the chunk it makes. */
  lemma FinalFlush(text: Runes, st: State, lead: Runes, gaps: seq<Runes>, maxLen: nat)
    returns (gaps': seq<Runes>)
    requires Decomposed(text, st, lead, gaps, maxLen) && Greedy(text, st.chunks, lead, gaps, maxLen)
    ensures Decomposes(text, Flush(st).chunks, lead, gaps', maxLen)
  {
    hide Laid, Greedy, Fits, FullPiece;
    gaps' := gaps;
    if st.current != [] {
      LaidAppend(st.chunks, gaps, st.current, []);
      GreedyTight(text, st.chunks, lead, gaps, [st.current], maxLen);
      gaps' := gaps + [[]];
      assert gaps + Empties(1) == gaps';
    } else {
      assert text == lead + Laid(st.chunks, gaps);
    }
  }

  /** Every text is its chunks in order with only runs of newlines before, between and after them. A
    gap between two chunks is empty only after a piece of exactly maxLen runes of one line. Every chunk
    starts with a rune that is no newline, has at most maxLen runes, and each further line in it fitted:
    octets before its newline, one, and its runes are at most maxLen. And a chunk with a newline after it
    ended there because the next line of the text did not fit in this sense. */
  lemma Decomposition(text: Runes, maxLen: nat) returns (lead: Runes, gaps: seq<Runes>)
    requires maxLen > 0
    ensures Decomposes(text, Chunks(text, maxLen), lead, gaps, maxLen)
  {
    if text == [] {
      lead, gaps := [], [];
    } else {
      var lines := Split(text, NL);
      SplitPieces(text, NL);
      lead, gaps := LinesDecompose(lines, maxLen);
      gaps := FinalFlush(text, AddLines(lines, maxLen), lead, gaps, maxLen);
    }
  }

  // ---------------------------------------------------------------- how many chunks

  /** Any two neighbouring chunks, the builder counting as the last, hold maxLen octets together. */
  ghost predicate WellFilled(st: State, maxLen: nat) {
    && (forall i :: 0 <= i < |st.chunks| - 1 ==> Bytes(st.chunks[i]) + Bytes(st.chunks[i + 1]) >= maxLen)
    && (st.chunks != [] ==> Bytes(st.chunks[|st.chunks| - 1]) + Bytes(st.current) >= maxLen)
  }

  lemma AddLineFills(st: State, line: Runes, maxLen: nat)
    requires maxLen > 0 && WellFilled(st, maxLen)
    ensures WellFilled(AddLine(st, line, maxLen), maxLen)
  {
    hide HardParts, FullParts, ShortParts, Bytes;
    BytesZero(st.current);
    if CandidateLength(st.current, line) > maxLen {
      var parts := HardParts(line, maxLen);
      var full, rest := FullParts(parts, maxLen), ShortParts(parts, maxLen);
      LineParts(line, maxLen);
      BytesAtLeastRunes(line);
      FillWithParts(Flush(st), full, rest, maxLen);
    } else if st.current != [] {
      BytesAppend(st.current + [NL], line);
      BytesAppend(st.current, [NL]);
    }
  }

  lemma FillWithParts(st: State, full: seq<Runes>, rest: Runes, maxLen: nat)
    requires AllOfLength(full, maxLen)
    requires forall i :: 0 <= i < |st.chunks| - 1 ==> Bytes(st.chunks[i]) + Bytes(st.chunks[i + 1]) >= maxLen
    requires full == [] && st.chunks != [] ==> Bytes(st.chunks[|st.chunks| - 1]) + Bytes(rest) >= maxLen
    ensures WellFilled(State(st.chunks + full, rest), maxLen)
  {
    hide Bytes;
    forall i | 0 <= i < |full| ensures Bytes(full[i]) >= maxLen { BytesAtLeastRunes(full[i]); }
    var chunks := st.chunks + full;
    forall i | 0 <= i < |chunks| - 1
      ensures Bytes(chunks[i]) + Bytes(chunks[i + 1]) >= maxLen
    {
      if i + 1 >= |st.chunks| { assert chunks[i + 1] == full[i + 1 - |st.chunks|]; }
    }
  }

  lemma {:induction false} LinesFill(lines: seq<Runes>, maxLen: nat)
    requires maxLen > 0
    ensures WellFilled(AddLines(lines, maxLen), maxLen)
  {
    if lines != [] {
      hide AddLine, WellFilled;
      LinesFill(lines[..|lines| - 1], maxLen);
      AddLineFills(AddLines(lines[..|lines| - 1], maxLen), lines[|lines| - 1], maxLen);
    }
  }

  /** Any two adjacent chunks together hold at least maxLen octets. */
  lemma NeighboursFill(text: Runes, maxLen: nat, i: nat)
    requires maxLen > 0 && i + 1 < |Chunks(text, maxLen)|
    ensures Bytes(Chunks(text, maxLen)[i]) + Bytes(Chunks(text, maxLen)[i + 1]) >= maxLen
  {
    hide AddLines, Bytes;
    LinesFill(Split(text, NL), maxLen);
  }

  lemma {:induction false} LaidHoldsChunks(chunks: seq<Runes>, gaps: seq<Runes>, maxLen: nat)
    requires |gaps| == |chunks|
    requires forall i :: 0 <= i < |chunks| - 1 ==> Bytes(chunks[i]) + Bytes(chunks[i + 1]) >= maxLen
    ensures |chunks| / 2 * maxLen <= Bytes(Laid(chunks, gaps))
    decreases |chunks|
  {
    hide Bytes;
    var n := |chunks|;
    if n >= 2 {
      var c, g := chunks[..n - 2], gaps[..n - 2];
      LaidHoldsChunks(c, g, maxLen);
      LaidSplitsTwo(chunks, gaps);
      assert n / 2 == (n - 2) / 2 + 1;
      assert n / 2 * maxLen == (n - 2) / 2 * maxLen + maxLen;
      assert Bytes(chunks[n - 2]) + Bytes(chunks[n - 2 + 1]) >= maxLen;
    }
  }

  lemma LaidSplitsTwo(chunks: seq<Runes>, gaps: seq<Runes>)
    requires |gaps| == |chunks| >= 2
    ensures var n := |chunks|;
            Bytes(Laid(chunks, gaps)) >= Bytes(Laid(chunks[..n - 2], gaps[..n - 2])) + Bytes(chunks[n - 2]) + Bytes(chunks[n - 1])
  {
    hide Bytes;
    var n := |chunks|;
    var c, g := chunks[..n - 1], gaps[..n - 1];
    assert c[..n - 2] == chunks[..n - 2] && g[..n - 2] == gaps[..n - 2];
    var head := Laid(chunks[..n - 2], gaps[..n - 2]);
    BytesAppend(head + chunks[n - 2], gaps[n - 2]);
    BytesAppend(head, chunks[n - 2]);
    BytesAppend(Laid(c, g) + chunks[n - 1], gaps[n - 1]);
    BytesAppend(Laid(c, g), chunks[n - 1]);
  }

  /** At most twice as many chunks as the octets hold maxLen, plus one. */
  lemma CountBound(text: Runes, maxLen: nat)
    requires maxLen > 0
    ensures |Chunks(text, maxLen)| <= 2 * (Bytes(text) / maxLen) + 1
  {
    hide Bytes, Chunks;
    var chunks := Chunks(text, maxLen);
    var lead, gaps := Decomposition(text, maxLen);
    forall i | 0 <= i < |chunks| - 1
      ensures Bytes(chunks[i]) + Bytes(chunks[i + 1]) >= maxLen
    {
      NeighboursFill(text, maxLen, i);
    }
    LaidHoldsChunks(chunks, gaps, maxLen);
    BytesAppend(lead, Laid(chunks, gaps));
    FitsBelow(|chunks| / 2, maxLen, Bytes(text));
  }

  lemma FitsBelow(k: nat, step: nat, n: nat)
    requires step > 0 && k * step <= n
    ensures k <= n / step
  {
    var q := n / step;
    assert n == q * step + n % step;
    MultipleIsLarge(k - q, step);
    assert (k - q) * step == k * step - q * step;
  }

  /** Nothing is posted exactly for texts made of newlines alone. */
  lemma NoChunks(text: Runes, maxLen: nat)
    requires maxLen > 0
    ensures Chunks(text, maxLen) == [] <==> OnlyNewlines(text)
  {
    hide Chunks;
    var chunks := Chunks(text, maxLen);
    var lead, gaps := Decomposition(text, maxLen);
    if chunks != [] {
      var n := |chunks| - 1;
      var before := lead + Laid(chunks[..n], gaps[..n]);
      assert text == before + chunks[n] + gaps[n];
      assert text[|before|] == chunks[n][0];
    }
  }

  // ---------------------------------------------------------------- joining back

  /** The chunks as they would stand after a flush. */
  function Flushed(st: State): seq<Runes> {
    Flush(st).chunks
  }

  predicate PlainLine(line: Runes, maxLen: nat) {
    1 <= |line| <= maxLen
  }

  lemma PlainLineJoins(st: State, line: Runes, maxLen: nat)
    requires maxLen > 0 && PlainLine(line, maxLen) && (Flushed(st) == [] ==> st == State([], []))
    ensures Join(Flushed(AddLine(st, line, maxLen)), NL) == Ended(Flushed(st)) + line
    ensures Flushed(AddLine(st, line, maxLen)) != []
  {
    hide HardParts, FullParts, ShortParts, Bytes, Join, Concat;
    var next := AddLine(st, line, maxLen);
    LineParts(line, maxLen);
    if CandidateLength(st.current, line) <= maxLen && st.current != [] {
      JoinAppend(st.chunks, st.current);
      JoinAppend(st.chunks, st.current + [NL] + line);
      assert Flushed(next) == st.chunks + [st.current + [NL] + line];
    } else {
      assert Flushed(next) == Flushed(st) + [line];
      JoinAppend(Flushed(st), line);
    }
  }

  lemma {:induction false} PlainLinesJoin(lines: seq<Runes>, maxLen: nat)
    requires maxLen > 0 && forall i :: 0 <= i < |lines| ==> PlainLine(lines[i], maxLen)
    ensures Join(Flushed(AddLines(lines, maxLen)), NL) == Join(lines, NL)
    ensures Flushed(AddLines(lines, maxLen)) == [] <==> lines == []
  {
    if lines != [] {
      hide AddLine;
      var n := |lines| - 1;
      PlainLinesJoin(lines[..n], maxLen);
      PlainLineJoins(AddLines(lines[..n], maxLen), lines[n], maxLen);
      JoinAppend(lines[..n], lines[n]);
      assert lines == lines[..n] + [lines[n]];
    }
  }

  /** With no blank and no over-long line, joining the chunks by newlines gives the text back. */
  lemma JoinsBack(text: Runes, maxLen: nat)
    requires maxLen > 0
    requires forall i :: 0 <= i < |Split(text, NL)| ==> PlainLine(Split(text, NL)[i], maxLen)
    ensures Join(Chunks(text, maxLen), NL) == text
  {
    hide AddLines;
    PlainLinesJoin(Split(text, NL), maxLen);
    SplitPieces(text, NL);
  }
}

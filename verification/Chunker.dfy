/** Splitting a Slack message into chunks, and posting them.

  Text is a sequence of Unicode scalar values. Lengths are taken in runes for lines and in UTF-8
  octets (section 3 of RFC 3629) for the chunk being built, as the program does. */
module Chunker {
  import opened Text

  type Rune = c: nat | c < 0x110000 && !(0xD800 <= c < 0xE000)

  type Runes = seq<Rune>

  const NL: Rune := 10

  function Width(c: Rune): nat {
    if c < 0x80 then 1 else if c < 0x800 then 2 else if c < 0x10000 then 3 else 4
  }

  /** Length in UTF-8 octets. */
  function Bytes(s: Runes): nat {
    if s == [] then 0 else Bytes(s[..|s| - 1]) + Width(s[|s| - 1])
  }

  // ---------------------------------------------------------------- hard splitting

  /** The pieces cut off by the loop of hardSplit. */
  function CutPieces(runes: Runes, maxLen: nat): seq<Runes>
    requires maxLen > 0
  {
    if runes == [] then []
    else if |runes| <= maxLen then [runes]
    else [runes[..maxLen]] + CutPieces(runes[maxLen..], maxLen)
  }

  function HardParts(line: Runes, maxLen: nat): seq<Runes>
    requires maxLen > 0
  {
    if |line| <= maxLen then [line] else CutPieces(line, maxLen)
  }

  method HardSplit(line: Runes, maxLen: nat) returns (parts: seq<Runes>)
    requires maxLen > 0
    ensures parts == HardParts(line, maxLen)
  {
    var runes := line;
    if |runes| <= maxLen {
      return [line];
    }
    parts := [];
    while |runes| > 0
      invariant parts + CutPieces(runes, maxLen) == CutPieces(line, maxLen)
      decreases |runes|
    {
      var n := maxLen;
      if n > |runes| {
        n := |runes|;
      }
      assert runes[..|runes|] == runes;
      assert CutPieces(runes, maxLen) == [runes[..n]] + CutPieces(runes[n..], maxLen);
      parts := parts + [runes[..n]];
      runes := runes[n..];
    }
  }

  /** The parts of exactly maxLen runes, which become chunks at once. */
  function FullParts(parts: seq<Runes>, maxLen: nat): seq<Runes> {
    if parts == [] then []
    else
      var init, last := FullParts(parts[..|parts| - 1], maxLen), parts[|parts| - 1];
      if |last| == maxLen then init + [last] else init
  }

  /** The other parts, written one after the other. */
  function ShortParts(parts: seq<Runes>, maxLen: nat): Runes {
    if parts == [] then []
    else
      var init, last := ShortParts(parts[..|parts| - 1], maxLen), parts[|parts| - 1];
      if |last| == maxLen then init else init + last
  }

  // ---------------------------------------------------------------- splitIntoChunks

  datatype State = State(chunks: seq<Runes>, current: Runes)

  function Flush(st: State): State {
    if st.current == [] then st else State(st.chunks + [st.current], [])
  }

  /** Octets already held, one for the joining newline, and the runes of the line. */
  function CandidateLength(current: Runes, line: Runes): nat {
    Bytes(current) + (if Bytes(current) > 0 then 1 else 0) + |line|
  }

  function AddLine(st: State, line: Runes, maxLen: nat): State
    requires maxLen > 0
  {
    if CandidateLength(st.current, line) > maxLen then
      var parts := HardParts(line, maxLen);
      State(Flush(st).chunks + FullParts(parts, maxLen), ShortParts(parts, maxLen))
    else if st.current != [] then st.(current := st.current + [NL] + line)
    else st.(current := line)
  }

  function AddLines(lines: seq<Runes>, maxLen: nat): State
    requires maxLen > 0
  {
    if lines == [] then State([], [])
    else AddLine(AddLines(lines[..|lines| - 1], maxLen), lines[|lines| - 1], maxLen)
  }

  function Chunks(text: Runes, maxLen: nat): seq<Runes>
    requires maxLen > 0
  {
    if text == [] then [] else Flush(AddLines(Split(text, NL), maxLen)).chunks
  }

  /** The inner loop: full parts become chunks, the others are written to the builder. */
  method PlaceParts(chunks0: seq<Runes>, current0: Runes, parts: seq<Runes>, maxLen: nat)
    returns (chunks: seq<Runes>, current: Runes)
    ensures chunks == chunks0 + FullParts(parts, maxLen)
    ensures current == current0 + ShortParts(parts, maxLen)
  {
    chunks, current := chunks0, current0;
    for j := 0 to |parts|
      invariant chunks == chunks0 + FullParts(parts[..j], maxLen)
      invariant current == current0 + ShortParts(parts[..j], maxLen)
    {
      assert parts[..j + 1][..j] == parts[..j];
      if |parts[j]| == maxLen {
        chunks := chunks + [parts[j]];
      } else {
        current := current + parts[j];
      }
    }
    assert parts[..|parts|] == parts;
  }

  method SplitIntoChunks(text: Runes, maxLen: nat) returns (chunks: seq<Runes>)
    requires maxLen > 0
    ensures chunks == Chunks(text, maxLen)
  {
    hide Split, HardParts, FullParts, ShortParts, Bytes;
    if text == [] {
      return [];
    }
    var lines := Split(text, NL);
    chunks := [];
    var current: Runes := [];
    for i := 0 to |lines|
      invariant AddLines(lines[..i], maxLen) == State(chunks, current)
    {
      var line := lines[i];
      assert lines[..i + 1][..i] == lines[..i];
      BytesZero(current);
      var candidateLen := Bytes(current);
      if candidateLen > 0 {
        candidateLen := candidateLen + 1;
      }
      candidateLen := candidateLen + |line|;
      if candidateLen > maxLen {
        if Bytes(current) > 0 {
          chunks := chunks + [current];
          current := [];
        }
        var parts := HardSplit(line, maxLen);
        chunks, current := PlaceParts(chunks, current, parts, maxLen);
      } else {
        if Bytes(current) > 0 {
          current := current + [NL];
        }
        current := current + line;
      }
    }
    assert lines[..|lines|] == lines;
    BytesZero(current);
    if Bytes(current) > 0 {
      chunks := chunks + [current];
    }
  }

  lemma BytesZero(s: Runes)
    ensures Bytes(s) == 0 <==> s == []
  {
  }
}

/** Helpers on text and sequences that several components share: white space, scans, splitting and joining. */
module Text {

  datatype Option<+T> = None | Some(value: T)

  datatype Result<+T, +E> = Success(value: T) | Failure(error: E)

  /** The characters `str.strip` and `str.split` treat as white space. */
  predicate IsSpace(c: char) {
    var n := c as int;
    9 <= n <= 13 || 28 <= n <= 32 || n == 0x85 || n == 0xA0 || n == 0x1680 || 0x2000 <= n <= 0x200A
    || n == 0x2028 || n == 0x2029 || n == 0x202F || n == 0x205F || n == 0x3000
  }

  predicate StartsWith(s: string, prefix: string) {
    |prefix| <= |s| && s[..|prefix|] == prefix
  }

  /** Index of the first item that passes the test, or the number of items. */
  function FirstHit<T>(test: T -> bool, items: seq<T>): (k: nat)
    ensures k <= |items|
    ensures k < |items| ==> test(items[k])
    ensures forall i :: 0 <= i < k ==> !test(items[i])
  {
    if items == [] || test(items[0]) then 0
    else
      var k := FirstHit(test, items[1..]);
      assert forall i :: 1 <= i < k + 1 ==> items[i] == items[1..][i - 1];
      1 + k
  }

  /** kept are the items that pass the test, all of them and in their order; from tells where each stands. */
  ghost predicate IsFilter<T(!new)>(test: T -> bool, items: seq<T>, kept: seq<T>, from: seq<nat>) {
    && |from| == |kept|
    && (forall k :: 0 <= k < |from| ==> from[k] < |items| && kept[k] == items[from[k]] && test(kept[k]))
    && (forall k, l :: 0 <= k < l < |from| ==> from[k] < from[l])
    && (forall i :: 0 <= i < |items| && test(items[i]) ==> i in from)
  }

  lemma FilterMore<T(!new)>(test: T -> bool, items: seq<T>, kept: seq<T>, from: seq<nat>)
    requires items != [] && IsFilter(test, items[..|items| - 1], kept, from)
    ensures var n := |items| - 1;
            if test(items[n]) then IsFilter(test, items, kept + [items[n]], from + [n]) else IsFilter(test, items, kept, from)
  {
    var n := |items| - 1;
    assert forall i :: 0 <= i < n ==> items[..n][i] == items[i];
  }

  /** Pieces of s between occurrences of sep; one more piece than there are separators. */
  function Split<T(==)>(s: seq<T>, sep: T): (pieces: seq<seq<T>>)
    ensures |pieces| >= 1
  {
    if s == [] then [[]]
    else
      var rest := Split(s[1..], sep);
      if s[0] == sep then [[]] + rest else [[s[0]] + rest[0]] + rest[1..]
  }

  function Join<T>(pieces: seq<seq<T>>, sep: T): seq<T> {
    if |pieces| == 0 then []
    else if |pieces| == 1 then pieces[0]
    else pieces[0] + [sep] + Join(pieces[1..], sep)
  }

  /** No piece holds the separator, and joining the pieces gives the text back. */
  lemma {:induction false} SplitPieces<T>(s: seq<T>, sep: T)
    ensures forall i :: 0 <= i < |Split(s, sep)| ==> sep !in Split(s, sep)[i]
    ensures Join(Split(s, sep), sep) == s
  {
    if s != [] {
      SplitPieces(s[1..], sep);
      var rest := Split(s[1..], sep);
      assert s == [s[0]] + s[1..];
      if s[0] == sep {
        assert ([[]] + rest)[1..] == rest;
      } else if |rest| > 1 {
        assert ([[s[0]] + rest[0]] + rest[1..])[1..] == rest[1..];
      }
    }
  }

  lemma {:induction false} SplitWithout<T>(s: seq<T>, sep: T)
    requires sep !in s
    ensures Split(s, sep) == [s]
  {
    if s != [] {
      SplitWithout(s[1..], sep);
      assert [s[0]] + s[1..] == s;
    }
  }

  /** A text of the form piece, separator, rest splits off the piece. */
  lemma {:induction false} SplitFirst<T>(piece: seq<T>, rest: seq<T>, sep: T)
    requires sep !in piece
    ensures Split(piece + [sep] + rest, sep) == [piece] + Split(rest, sep)
  {
    var s := piece + [sep] + rest;
    if piece == [] {
      assert s[1..] == rest;
    } else {
      assert s[1..] == piece[1..] + [sep] + rest;
      SplitFirst(piece[1..], rest, sep);
      assert [s[0]] + piece[1..] == piece;
    }
  }

  /** Splitting undoes joining separator-free pieces. */
  lemma {:induction false} SplitJoin<T>(pieces: seq<seq<T>>, sep: T)
    requires |pieces| >= 1
    requires forall i :: 0 <= i < |pieces| ==> sep !in pieces[i]
    ensures Split(Join(pieces, sep), sep) == pieces
  {
    if |pieces| == 1 {
      SplitWithout(pieces[0], sep);
    } else {
      SplitFirst(pieces[0], Join(pieces[1..], sep), sep);
      SplitJoin(pieces[1..], sep);
    }
  }
}

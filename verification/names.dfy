/** File names as text: the UTF-8 length that `str::len` reports and the
    dot-separated pieces that `str::split(".")` yields. */
module Names {

  /** Number of bytes UTF-8 uses for one Unicode scalar value. */
  function Utf8Width(c: char): (w: nat)
    ensures 1 <= w <= 4
    ensures w == 1 <==> (c as int) < 0x80
  {
    if (c as int) < 0x80 then 1
    else if (c as int) < 0x800 then 2
    else if (c as int) < 0x1_0000 then 3
    else 4
  }

  /** Byte length of the UTF-8 encoding of `s` (what `String::len` returns). */
  function Utf8Len(s: string): (n: nat)
    ensures |s| <= n <= 4 * |s|
  {
    if s == [] then 0 else Utf8Width(s[0]) + Utf8Len(s[1..])
  }

  lemma {:induction false} Utf8LenAscii(s: string)
    requires forall i :: 0 <= i < |s| ==> (s[i] as int) < 0x80
    ensures Utf8Len(s) == |s|
  {
    if s != [] {
      assert (s[0] as int) < 0x80;
      Utf8LenAscii(s[1..]);
    }
  }

  /** The pieces of `s` between dots, in order; an empty string is one empty
      piece and every dot separates two (possibly empty) pieces. */
  function Split(s: string): (pieces: seq<string>)
    ensures |pieces| == 1 + Dots(s)
    ensures forall k :: 0 <= k < |pieces| ==> '.' !in pieces[k]
  {
    if s == [] then [[]]
    else
      var rest := Split(s[1..]);
      if s[0] == '.' then [[]] + rest
      else [[s[0]] + rest[0]] + rest[1..]
  }

  /** Number of dots in `s`. */
  function Dots(s: string): nat
  {
    if s == [] then 0 else (if s[0] == '.' then 1 else 0) + Dots(s[1..])
  }

  /** Inverse of Split: the pieces glued back together with dots. */
  function Join(pieces: seq<string>): string
    requires |pieces| >= 1
  {
    if |pieces| == 1 then pieces[0] else pieces[0] + "." + Join(pieces[1..])
  }

  lemma {:induction false} JoinSplit(s: string)
    ensures Join(Split(s)) == s
  {
    if s != [] {
      var rest := Split(s[1..]);
      JoinSplit(s[1..]);
      if s[0] == '.' {
        assert Split(s)[1..] == rest;
      } else {
        if |rest| == 1 {
          assert Join(Split(s)) == [s[0]] + rest[0];
        } else {
          assert Split(s)[1..] == rest[1..];
          assert Join(Split(s)) == [s[0]] + (rest[0] + "." + Join(rest[1..]));
        }
      }
      assert s == [s[0]] + s[1..];
    }
  }

  /** The text of `s` is its last piece, preceded by a dot unless it is the
      only piece. */
  lemma {:induction false} JoinEndsWithLast(pieces: seq<string>)
    requires |pieces| >= 1
    ensures var j := Join(pieces); var last := pieces[|pieces| - 1];
      |last| <= |j| && j[|j| - |last|..] == last &&
      (|pieces| > 1 ==> |last| < |j| && j[|j| - |last| - 1] == '.')
  {
    if |pieces| > 1 {
      JoinEndsWithLast(pieces[1..]);
      var tail := Join(pieces[1..]);
      assert Join(pieces) == (pieces[0] + ".") + tail;
    }
  }

  /** The piece that `split(".").last()` yields: never absent. */
  function LastSegment(s: string): (r: string)
    ensures '.' !in r
    ensures |r| <= |s| && s[|s| - |r|..] == r
    ensures |r| == |s| || s[|s| - |r| - 1] == '.'
  {
    var pieces := Split(s);
    JoinSplit(s);
    JoinEndsWithLast(pieces);
    pieces[|pieces| - 1]
  }

  /** The three facts in LastSegment's contract pin its result down: any
      dot-free suffix that is the whole name or follows a dot is it. */
  lemma LastSegmentUnique(s: string, r: string)
    requires '.' !in r
    requires |r| <= |s| && s[|s| - |r|..] == r
    requires |r| == |s| || s[|s| - |r| - 1] == '.'
    ensures r == LastSegment(s)
  {
    var t := LastSegment(s);
    assert |t| == |r|;
    assert r == s[|s| - |r|..] == t;
  }

  /** A name without a dot is its own last segment. */
  lemma NoDotIsOwnSegment(s: string)
    requires '.' !in s
    ensures LastSegment(s) == s
  {
    LastSegmentUnique(s, s);
  }
}

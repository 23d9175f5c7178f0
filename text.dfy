/**
 * The JavaScript string operations the core relies on: `String.prototype.split` with a
 * one-character separator, its inverse `Array.prototype.join`, and `startsWith`.
 */
module Text {

  /** `s.startsWith(p)`. */
  predicate StartsWith(s: string, p: string) {
    |p| <= |s| && s[..|p|] == p
  }

  /**
   * `s.split(d)` for a one-character separator `d`: the pieces between the separators,
   * including empty ones; the empty string splits into one empty piece.
   */
  function Split(s: string, d: char): (parts: seq<string>)
    ensures |parts| >= 1
  {
    if s == [] then [""]
    else
      var rest := Split(s[1..], d);
      if s[0] == d then [""] + rest else [[s[0]] + rest[0]] + rest[1..]
  }

  /** `parts.join(d)`. */
  function Join(parts: seq<string>, d: char): string
    requires |parts| >= 1
  {
    if |parts| == 1 then parts[0] else parts[0] + [d] + Join(parts[1..], d)
  }

  /** Joining the pieces of a split with the same separator gives the string back. */
  lemma {:induction false} JoinSplit(s: string, d: char)
    ensures Join(Split(s, d), d) == s
  {
    if s != [] {
      var rest := Split(s[1..], d);
      JoinSplit(s[1..], d);
      if s[0] == d {
        assert Split(s, d)[1..] == rest;
        assert s == [d] + s[1..];
      } else {
        var parts := Split(s, d);
        assert parts[1..] == rest[1..];
        if |rest| == 1 {
          assert s == [s[0]] + rest[0];
        } else {
          assert s == [s[0]] + (rest[0] + [d] + Join(rest[1..], d));
        }
      }
    }
  }

  /** No piece of a split contains the separator. */
  lemma {:induction false} SplitPiecesFree(s: string, d: char)
    ensures forall i :: 0 <= i < |Split(s, d)| ==> d !in Split(s, d)[i]
  {
    if s != [] {
      SplitPiecesFree(s[1..], d);
    }
  }

  /** A string without the separator is one piece. */
  lemma {:induction false} SplitWithoutSeparator(s: string, d: char)
    requires d !in s
    ensures Split(s, d) == [s]
  {
    if s != [] {
      SplitWithoutSeparator(s[1..], d);
      assert [s[0]] + s[1..] == s;
    }
  }

  /** Splitting at the first separator: the text before it is the first piece. */
  lemma {:induction false} SplitAtFirst(a: string, b: string, d: char)
    requires d !in a
    ensures Split(a + [d] + b, d) == [a] + Split(b, d)
  {
    if a == [] {
      assert a + [d] + b == [d] + b;
      assert ([d] + b)[1..] == b;
    } else {
      SplitAtFirst(a[1..], b, d);
      assert (a + [d] + b)[1..] == a[1..] + [d] + b;
      assert [a[0]] + a[1..] == a;
    }
  }

  /**
   * The first piece of a split is the text before the first separator: it holds no separator,
   * and either it is the whole string or a separator follows it.
   */
  lemma {:induction false} SplitFirstPiece(s: string, d: char)
    ensures d !in Split(s, d)[0]
    ensures Split(s, d)[0] == s || StartsWith(s, Split(s, d)[0] + [d])
  {
    if s != [] {
      SplitFirstPiece(s[1..], d);
      var p := Split(s[1..], d)[0];
      if s[0] != d {
        assert Split(s, d)[0] == [s[0]] + p;
        if p != s[1..] {
          assert s[..|p| + 2] == [s[0]] + s[1..][..|p| + 1];
        }
      }
    }
  }

  /** A split yields a single piece exactly when the separator does not occur. */
  lemma {:induction false} SplitOnePiece(s: string, d: char)
    ensures (|Split(s, d)| == 1) == (d !in s)
  {
    if s != [] {
      SplitOnePiece(s[1..], d);
      assert s == [s[0]] + s[1..];
    }
  }
}

/**
 * The comma split applied to the `nums` query string (`nums.split(',')`).
 * JavaScript's `split` with a one-character separator returns every piece
 * between separators, keeping empty pieces, and always returns at least one
 * piece (the empty string splits into `[""]`).
 */
module Tokens {

  const Comma: char := ','

  /** The pieces of `s` between commas, in order. */
  function Split(s: string): (parts: seq<string>)
    ensures |parts| >= 1
    ensures forall i :: 0 <= i < |parts| ==> Comma !in parts[i]
  {
    if s == [] then [[]]
    else
      var rest := Split(s[1..]);
      if s[0] == Comma then [[]] + rest
      else [[s[0]] + rest[0]] + rest[1..]
  }

  /** The inverse of `Split`: the pieces glued back together with commas. */
  function Join(parts: seq<string>): string
    requires |parts| >= 1
  {
    if |parts| == 1 then parts[0] else parts[0] + [Comma] + Join(parts[1..])
  }

  /** Splitting loses nothing: gluing the pieces back gives the input. */
  lemma {:induction false} JoinSplit(s: string)
    ensures Join(Split(s)) == s
  {
    if s != [] {
      var rest := Split(s[1..]);
      JoinSplit(s[1..]);
      if s[0] == Comma {
        assert Split(s) == [[]] + rest;
        assert Join(Split(s)) == [] + [Comma] + Join(rest);
        assert s == [s[0]] + s[1..];
      } else {
        var parts := [[s[0]] + rest[0]] + rest[1..];
        assert Split(s) == parts;
        if |rest| == 1 {
          assert Join(parts) == [s[0]] + rest[0];
        } else {
          assert parts[1..] == rest[1..];
          assert Join(rest) == rest[0] + [Comma] + Join(rest[1..]);
          assert Join(parts) == [s[0]] + Join(rest);
        }
        assert s == [s[0]] + s[1..];
      }
    }
  }

  /** Prepending a comma-free text to a string extends its first piece. */
  lemma {:induction false} SplitPrefix(p: string, tail: string)
    requires Comma !in p
    ensures Split(p + tail) == [p + Split(tail)[0]] + Split(tail)[1..]
  {
    if p != [] {
      SplitPrefix(p[1..], tail);
      assert (p + tail)[1..] == p[1..] + tail;
      assert (p + tail)[0] == p[0] != Comma;
      assert [p[0]] + (p[1..] + Split(tail)[0]) == p + Split(tail)[0];
    } else {
      assert p + tail == tail;
      assert p + Split(tail)[0] == Split(tail)[0];
      assert Split(tail) == [Split(tail)[0]] + Split(tail)[1..];
    }
  }

  /** Splitting recovers the pieces that were joined, when no piece holds a comma. */
  lemma {:induction false} SplitJoin(parts: seq<string>)
    requires |parts| >= 1
    requires forall i :: 0 <= i < |parts| ==> Comma !in parts[i]
    ensures Split(Join(parts)) == parts
  {
    if |parts| == 1 {
      SplitPrefix(parts[0], []);
      assert parts[0] + [] == parts[0];
    } else {
      var tail := Join(parts[1..]);
      SplitJoin(parts[1..]);
      assert Join(parts) == parts[0] + ([Comma] + tail);
      SplitPrefix(parts[0], [Comma] + tail);
      assert ([Comma] + tail)[1..] == tail;
      assert Split([Comma] + tail) == [[]] + Split(tail);
      assert parts[0] + [] == parts[0];
      assert parts == [parts[0]] + parts[1..];
    }
  }
}

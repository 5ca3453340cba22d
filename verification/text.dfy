/** Concatenation of string pieces, as f-strings and repeated `write`s build text. */
module Text {

  /** The strings of `parts`, one after the other. */
  function Concat(parts: seq<string>): string {
    if parts == [] then "" else Concat(parts[..|parts| - 1]) + parts[|parts| - 1]
  }

  function Map<A, B>(s: seq<A>, f: A -> B): (r: seq<B>)
    ensures |r| == |s|
    ensures forall i :: 0 <= i < |s| ==> r[i] == f(s[i])
  {
    seq(|s|, i requires 0 <= i < |s| => f(s[i]))
  }

  lemma {:induction false} ConcatAppend(x: seq<string>, y: seq<string>)
    ensures Concat(x + y) == Concat(x) + Concat(y)
  {
    if y == [] {
      assert x + y == x;
    } else {
      assert (x + y)[..|x + y| - 1] == x + y[..|y| - 1];
      ConcatAppend(x, y[..|y| - 1]);
    }
  }

  lemma ConcatSingle(x: string)
    ensures Concat([]) == "" && Concat([x]) == x
  {
  }

  lemma MapAppend<A, B>(a: seq<A>, b: seq<A>, f: A -> B)
    ensures Map(a + b, f) == Map(a, f) + Map(b, f)
  {
  }

  /** Three pieces written one after the other onto what is already there. */
  lemma ConcatThree(buffer: string, a: string, b: string, c: string)
    ensures Concat([a, b, c]) == a + b + c
    ensures buffer + a + b + c == buffer + Concat([a, b, c])
  {
    ConcatSingle(a);
    assert [a, b][..1] == [a];
    assert Concat([a, b]) == a + b;
    assert [a, b, c][..2] == [a, b];
  }

  /** Three strings joined begin with the first. */
  lemma ConcatThreeOpens(a: string, b: string, c: string)
    ensures a <= Concat([a, b, c])
  {
    ConcatThree("", a, b, c);
    assert a + b + c == a + (b + c);
  }

  /** The seven pieces of a timestamp, joined. */
  lemma {:induction false} ConcatSeven(a: string, b: string, c: string, d: string, e: string, f: string, g: string)
    ensures Concat([a, b, c, d, e, f, g]) == a + b + c + d + e + f + g
  {
    ConcatSingle(a);
    assert [a, b][..1] == [a];
    assert Concat([a, b]) == a + b;
    assert [a, b, c][..2] == [a, b];
    assert Concat([a, b, c]) == a + b + c;
    assert [a, b, c, d][..3] == [a, b, c];
    assert Concat([a, b, c, d]) == a + b + c + d;
    assert [a, b, c, d, e][..4] == [a, b, c, d];
    assert Concat([a, b, c, d, e]) == a + b + c + d + e;
    assert [a, b, c, d, e, f][..5] == [a, b, c, d, e];
    assert Concat([a, b, c, d, e, f]) == a + b + c + d + e + f;
    assert [a, b, c, d, e, f, g][..6] == [a, b, c, d, e, f];
  }

  /** A prefix of the middle part of `pre + block + post`, put after `pre`, is a
      prefix of the whole. */
  lemma PrefixAt(pre: string, block: string, post: string, line: string)
    requires line <= block
    ensures pre + line <= pre + block + post
  {
  }
}

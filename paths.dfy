/**
  Path segmentation: the model of `strings.Split(path, "/")` and of the
  router's `explodePath`, which keeps only the non-empty pieces.
 */
module Paths {

  /** The pieces of `s` between `/` separators, as `strings.Split(s, "/")`
      returns them: always at least one piece, empty pieces included. */
  function Split(s: string): (r: seq<string>)
    ensures |r| >= 1
    decreases |s|
  {
    if s == [] then [[]]
    else
      var rest := Split(s[1..]);
      if s[0] == '/' then [[]] + rest
      else [[s[0]] + rest[0]] + rest[1..]
  }

  /** The inverse of Split: the pieces glued back together with `/`. */
  function Join(pieces: seq<string>): string
    requires |pieces| >= 1
  {
    if |pieces| == 1 then pieces[0] else pieces[0] + "/" + Join(pieces[1..])
  }

  /** The non-empty elements of `pieces`, in their order. */
  function NonEmpty(pieces: seq<string>): (r: seq<string>)
    ensures |r| <= |pieces|
    ensures forall i :: 0 <= i < |r| ==> r[i] != []
    ensures (forall i :: 0 <= i < |pieces| ==> pieces[i] != []) ==> r == pieces
    decreases |pieces|
  {
    if pieces == [] then []
    else
      var last := pieces[|pieces| - 1];
      NonEmpty(pieces[..|pieces| - 1]) + (if last == [] then [] else [last])
  }

  /** The segments of a path: what `explodePath` returns. */
  function Segments(path: string): (r: seq<string>)
    ensures forall i :: 0 <= i < |r| ==> IsSegment(r[i])
  {
    SplitHasNoSeparator(path);
    NonEmptyKeeps(Split(path));
    NonEmpty(Split(path))
  }

  /** A segment as the tree stores it: non-empty and free of separators. */
  predicate IsSegment(seg: string)
  {
    seg != [] && '/' !in seg
  }

  /** `explodePath`: split on `/` and keep, in order, the non-empty pieces. */
  method ExplodePath(path: string) returns (r: seq<string>)
    ensures r == NonEmpty(Split(path))
    ensures forall i :: 0 <= i < |r| ==> IsSegment(r[i])
  {
    var s := Split(path);
    r := [];
    for i := 0 to |s|
      invariant r == NonEmpty(s[..i])
    {
      assert s[..i + 1][..i] == s[..i];
      if s[i] != "" {
        r := r + [s[i]];
      }
    }
    assert s[..|s|] == s;
    assert r == Segments(path);
  }

  /** Joining the pieces that Split returns gives back the input. */
  lemma {:induction false} JoinSplit(s: string)
    ensures Join(Split(s)) == s
    decreases |s|
  {
    if s != [] {
      var rest := Split(s[1..]);
      JoinSplit(s[1..]);
      if s[0] == '/' {
        assert Split(s) == [[]] + rest;
        assert Split(s)[1..] == rest;
      } else {
        var r := Split(s);
        if |rest| == 1 {
          assert r == [[s[0]] + rest[0]];
        } else {
          assert r[1..] == rest[1..];
          assert Join(rest) == rest[0] + "/" + Join(rest[1..]);
        }
        assert s == [s[0]] + s[1..];
      }
    }
  }

  /** No piece that Split returns contains a separator. */
  lemma {:induction false} SplitHasNoSeparator(s: string)
    ensures forall i :: 0 <= i < |Split(s)| ==> '/' !in Split(s)[i]
    decreases |s|
  {
    if s != [] {
      SplitHasNoSeparator(s[1..]);
    }
  }

  /** Split characterised: a sequence of separator-free pieces that joins to
      `s` is exactly Split(s). */
  lemma {:induction false} SplitUnique(s: string, pieces: seq<string>)
    requires |pieces| >= 1 && Join(pieces) == s
    requires forall i :: 0 <= i < |pieces| ==> '/' !in pieces[i]
    ensures pieces == Split(s)
    decreases |s|, |pieces[0]|
  {
    if |pieces| == 1 {
      NoSeparatorSplit(s);
    } else if pieces[0] == [] {
      var tail := pieces[1..];
      assert s == "/" + Join(tail);
      assert s[1..] == Join(tail);
      SplitUnique(s[1..], tail);
      assert pieces == [[]] + tail;
    } else {
      var head := pieces[0];
      var shorter := [head[1..]] + pieces[1..];
      assert shorter[1..] == pieces[1..];
      assert head[0] in head;
      assert forall i :: 1 <= i < |shorter| ==> shorter[i] == pieces[i];
      assert forall c :: c in head[1..] ==> c in head;
      assert Join(pieces) == [head[0]] + Join(shorter);
      assert s[0] == head[0] && s[1..] == Join(shorter);
      SplitUnique(s[1..], shorter);
      assert head == [head[0]] + head[1..];
    }
  }

  /** A string without separators splits into itself alone. */
  lemma {:induction false} NoSeparatorSplit(s: string)
    requires '/' !in s
    ensures Split(s) == [s]
    decreases |s|
  {
    if s != [] {
      assert s[0] in s;
      assert forall c :: c in s[1..] ==> c in s;
      NoSeparatorSplit(s[1..]);
      assert s == [s[0]] + s[1..];
    }
  }

  /** Concatenation across a separator splits into the two splits. */
  lemma {:induction false} SplitAtSeparator(x: string, y: string)
    ensures Split(x + "/" + y) == Split(x) + Split(y)
    decreases |x|
  {
    if x == [] {
      assert x + "/" + y == ['/'] + y;
      SplitCons('/', y);
    } else {
      var c, t := x[0], x[1..];
      assert x == [c] + t;
      assert x + "/" + y == [c] + (t + "/" + y);
      SplitAtSeparator(t, y);
      SplitConsAppend(c, t, y);
    }
  }

  /** The step of SplitAtSeparator: prepending a character to the left
      part keeps the split of the whole equal to the two splits. */
  lemma SplitConsAppend(c: char, t: string, y: string)
    requires Split(t + "/" + y) == Split(t) + Split(y)
    ensures Split([c] + (t + "/" + y)) == Split([c] + t) + Split(y)
  {
    SplitCons(c, t + "/" + y);
    SplitCons(c, t);
    ConsPieces(c, Split(t), Split(y));
  }

  /** The sequence algebra behind SplitConsAppend. */
  lemma ConsPieces(c: char, a: seq<string>, b: seq<string>)
    requires |a| >= 1
    ensures (if c == '/' then [[]] + (a + b) else [[c] + (a + b)[0]] + (a + b)[1..])
         == (if c == '/' then [[]] + a else [[c] + a[0]] + a[1..]) + b
  {
    if c != '/' {
      assert (a + b)[0] == a[0];
      assert (a + b)[1..] == a[1..] + b;
    } else {
      assert [[]] + (a + b) == ([[]] + a) + b;
    }
  }

  /** One step of Split: a separator starts a new piece, any other
      character joins the first piece. */
  lemma SplitCons(c: char, t: string)
    ensures Split([c] + t) ==
      if c == '/' then [[]] + Split(t) else [[c] + Split(t)[0]] + Split(t)[1..]
  {
    assert ([c] + t)[0] == c && ([c] + t)[1..] == t;
  }

  /** Filtering distributes over concatenation. */
  lemma {:induction false} NonEmptyAppend(u: seq<string>, v: seq<string>)
    ensures NonEmpty(u + v) == NonEmpty(u) + NonEmpty(v)
    decreases |v|
  {
    if v == [] {
      assert u + v == u;
    } else {
      var w := v[..|v| - 1];
      assert (u + v)[..|u + v| - 1] == u + w;
      assert (u + v)[|u + v| - 1] == v[|v| - 1];
      NonEmptyAppend(u, w);
    }
  }

  /** NonEmpty keeps, in order, exactly the non-empty elements of its
      input: each kept element comes from the input, and each non-empty
      element of the input is kept. */
  lemma {:induction false} NonEmptyKeeps(pieces: seq<string>)
    ensures forall i :: 0 <= i < |NonEmpty(pieces)| ==> NonEmpty(pieces)[i] in pieces
    ensures forall i :: 0 <= i < |pieces| && pieces[i] != [] ==> pieces[i] in NonEmpty(pieces)
    decreases |pieces|
  {
    if pieces != [] {
      var front := pieces[..|pieces| - 1];
      NonEmptyKeeps(front);
      assert pieces == front + [pieces[|pieces| - 1]];
      assert forall x :: x in front ==> x in pieces;
    }
  }

  /** The segments of two paths joined by a separator are the segments of
      each, in order: duplicate and trailing slashes do not matter. */
  lemma SegmentsAtSeparator(x: string, y: string)
    ensures Segments(x + "/" + y) == Segments(x) + Segments(y)
  {
    SplitAtSeparator(x, y);
    NonEmptyAppend(Split(x), Split(y));
  }

  /** Concatenating two paths where a separator stands at the seam (the end
      of the first or the start of the second) concatenates their segments. */
  lemma SegmentsConcat(a: string, b: string)
    requires (|a| > 0 && a[|a| - 1] == '/') || (|b| > 0 && b[0] == '/')
    ensures Segments(a + b) == Segments(a) + Segments(b)
  {
    if |a| > 0 && a[|a| - 1] == '/' {
      var x := a[..|a| - 1];
      assert a == x + "/" + "";
      assert a + b == x + "/" + b;
      SegmentsAtSeparator(x, b);
      SegmentsAtSeparator(x, "");
      assert Segments("") == [];
    } else {
      var y := b[1..];
      assert b == "" + "/" + y;
      assert a + b == a + "/" + y;
      SegmentsAtSeparator(a, y);
      SegmentsAtSeparator("", y);
      assert Segments("") == [];
    }
  }

  /** A path without separators is its own single segment, or none if it
      is empty. */
  lemma SegmentsOfWord(w: string)
    requires '/' !in w
    ensures Segments(w) == if w == [] then [] else [w]
  {
    NoSeparatorSplit(w);
    assert [w][..0] == [];
    assert NonEmpty([w]) == NonEmpty([w][..0]) + (if w == [] then [] else [w]);
  }

  /** A separator followed by one word is that word's single segment. */
  lemma SegmentsOfRootedWord(w: string)
    requires w != [] && '/' !in w
    ensures Segments("/" + w) == [w]
  {
    SegmentsOfWord(w);
    assert "/" + w == [] + "/" + w;
    SegmentsAtSeparator([], w);
    SegmentsOfEmpty();
  }

  /** The empty path has no segment. */
  lemma SegmentsOfEmpty()
    ensures Segments([]) == []
  {
    assert Split([]) == [[]];
    assert NonEmpty([[]]) == NonEmpty([]);
  }

  /** `"/" + a + "/" + b` has the segments a, b. */
  lemma SegmentsOfPair(a: string, b: string)
    requires IsSegment(a) && IsSegment(b)
    ensures Segments("/" + a + "/" + b) == [a, b]
  {
    SegmentsOfRootedWord(a);
    SegmentsOfWord(b);
    assert "/" + a + "/" + b == ("/" + a) + "/" + b;
    SegmentsAtSeparator("/" + a, b);
  }

  /** `"/" + a + "/" + b + "/" + c` has the segments a, b, c. */
  lemma SegmentsOfTriple(a: string, b: string, c: string)
    requires IsSegment(a) && IsSegment(b) && IsSegment(c)
    ensures Segments("/" + a + "/" + b + "/" + c) == [a, b, c]
  {
    var ab := "/" + a + "/" + b;
    SegmentsOfPair(a, b);
    SegmentsOfWord(c);
    assert "/" + a + "/" + b + "/" + c == ab + "/" + c;
    SegmentsAtSeparator(ab, c);
  }

  /** "/" has no segment. */
  lemma SegmentsOfSlash()
    ensures Segments("/") == []
  {
    SegmentsOfEmpty();
    assert "/" == [] + "/" + [];
    SegmentsAtSeparator([], []);
  }
}

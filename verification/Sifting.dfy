/** Lists of words written with commas: the trimmed pieces, in order, that are worth keeping. */
module Sifting {
  import opened Lists
  import opened Text

  function Sift(pieces: seq<string>, keep: string -> bool): seq<string>
  {
    if pieces == [] then []
    else
      var n := |pieces| - 1;
      var a := TrimSpace(pieces[n]);
      Sift(pieces[..n], keep) + if keep(a) then [a] else []
  }

  lemma SiftStep(pieces: seq<string>, n: nat, keep: string -> bool)
    requires n < |pieces|
    ensures Sift(pieces[..n + 1], keep) ==
            Sift(pieces[..n], keep) + if keep(TrimSpace(pieces[n])) then [TrimSpace(pieces[n])] else []
  {
    assert pieces[..n + 1][..n] == pieces[..n];
  }

  lemma {:induction false} SiftOfConcat(xs: seq<string>, ys: seq<string>, keep: string -> bool)
    ensures Sift(xs + ys, keep) == Sift(xs, keep) + Sift(ys, keep)
    decreases |ys|
  {
    if ys == [] {
      assert xs + ys == xs;
    } else {
      var n := |ys| - 1;
      assert (xs + ys)[..|xs + ys| - 1] == xs + ys[..n];
      SiftOfConcat(xs, ys[..n], keep);
    }
  }

  /** What is kept is trimmed, and nothing is kept that should not be. */
  lemma {:induction false} SiftedIs(pieces: seq<string>, keep: string -> bool)
    ensures forall a :: a in Sift(pieces, keep) ==> keep(a) && Trimmed(a)
    ensures |Sift(pieces, keep)| <= |pieces|
    decreases |pieces|
  {
    if pieces != [] {
      var n := |pieces| - 1;
      SiftedIs(pieces[..n], keep);
      TrimIsTrimmed(pieces[n]);
    }
  }

  lemma {:induction false} SiftAvoids(pieces: seq<string>, keep: string -> bool, c: char)
    requires Free(pieces, c)
    ensures Free(Sift(pieces, keep), c)
    decreases |pieces|
  {
    if pieces != [] {
      var n := |pieces| - 1;
      SiftAvoids(pieces[..n], keep, c);
      TrimAvoids(pieces[n], c);
    }
  }

  /** Words that are trimmed and all worth keeping are kept as they are. */
  lemma {:induction false} SiftOfSifted(words: seq<string>, keep: string -> bool)
    requires forall a :: a in words ==> keep(a) && Trimmed(a)
    ensures Sift(words, keep) == words
    decreases |words|
  {
    if words != [] {
      var n := |words| - 1;
      assert words[n] in words && words[..n + 1] == words;
      SiftOfSifted(words[..n], keep);
      TrimmedIsFixed(words[n]);
      SiftStep(words, n, keep);
      assert words[..n] + [words[n]] == words;
    }
  }

  /** A first, laxer sifting changes nothing. */
  lemma {:induction false} SiftTwice(pieces: seq<string>, lax: string -> bool, keep: string -> bool)
    requires forall a :: keep(a) ==> lax(a)
    ensures Sift(Sift(pieces, lax), keep) == Sift(pieces, keep)
    decreases |pieces|
  {
    if pieces != [] {
      var n := |pieces| - 1;
      var a := TrimSpace(pieces[n]);
      var last := if lax(a) then [a] else [];
      SiftTwice(pieces[..n], lax, keep);
      SiftOfConcat(Sift(pieces[..n], lax), last, keep);
      TrimIsTrimmed(pieces[n]);
      TrimmedIsFixed(a);
      assert Sift([], keep) == [];
      assert Sift([a], keep) == if keep(a) then [a] else [] by { assert [a][..0] == []; }
    }
  }

  function PiecesOf(value: string): seq<string>
  {
    Split(value, ',')
  }

  /** The pieces of every value, in order. */
  function AllPieces(values: seq<string>): seq<string>
  {
    FlatMap(values, PiecesOf)
  }

  /** Values that hold no comma are their own pieces. */
  lemma AllPiecesOfWords(words: seq<string>)
    requires Free(words, ',')
    ensures AllPieces(words) == words
  {
    forall i | 0 <= i < |words| ensures PiecesOf(words[i]) == [words[i]] {
      SplitWithout(words[i], ',');
    }
    FlatMapFixed(words, PiecesOf);
  }

  /** Joining values with commas moves no piece. */
  lemma {:induction false} AllPiecesOfJoin(values: seq<string>)
    requires values != []
    ensures AllPieces(values) == Split(Join(values, ','), ',')
    decreases |values|
  {
    var rest := values[1..];
    FlatMapFirst(values, PiecesOf);
    if rest == [] {
      assert AllPieces(values) == Split(values[0], ',') + [];
    } else {
      AllPiecesOfJoin(rest);
      SplitOfConcat(values[0], ',', Join(rest, ','));
    }
  }
}

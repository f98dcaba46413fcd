/** Which patterns are refused, and why. */
module GlobErrors {
  import opened Wrappers
  import opened Lists
  import opened Text
  import opened Globs
  import opened GlobMeaning

  /** A byte is escaped by a `\` before it that is not escaped itself. */
  predicate Escaped(t: string, i: nat)
    requires i <= |t|
  {
    i > 0 && t[i - 1] == '\\' && !Escaped(t, i - 1)
  }

  predicate BareStar(t: string, i: nat)
  {
    i < |t| && t[i] == '*' && !Escaped(t, i)
  }

  ghost predicate HasDoubleStar(t: string)
  {
    exists i: nat :: BareStar(t, i) && BareStar(t, i + 1)
  }

  /** The text ends in a `\` that is not escaped: a byte after it would be. */
  predicate EndsBare(t: string)
  {
    Escaped(t, |t|)
  }

  /** How many stars from index `i` on are not escaped. */
  function BareStars(t: string, i: nat): nat
    requires i <= |t|
    decreases |t| - i
  {
    if i == |t| then 0 else (if BareStar(t, i) then 1 else 0) + BareStars(t, i + 1)
  }

  /** Whether a byte is escaped does not depend on what stands before a byte that is not. */
  lemma {:induction false} EscapedFrom(t: string, n: nat, i: nat)
    requires n <= |t| && !Escaped(t, n) && i <= |t[n..]|
    ensures Escaped(t, n + i) <==> Escaped(t[n..], i)
    decreases i
  {
    if i > 0 {
      EscapedFrom(t, n, i - 1);
    }
  }

  lemma EndsBareFrom(t: string, n: nat)
    requires n <= |t| && !Escaped(t, n)
    ensures EndsBare(t[n..]) <==> EndsBare(t)
  {
    EscapedFrom(t, n, |t[n..]|);
  }

  lemma BareStarFrom(t: string, n: nat, i: nat)
    requires n <= |t| && !Escaped(t, n)
    ensures BareStar(t, n + i) <==> BareStar(t[n..], i)
  {
    if n + i < |t| {
      EscapedFrom(t, n, i);
    }
  }

  lemma {:induction false} BareStarsFrom(t: string, n: nat, i: nat)
    requires n <= |t| && !Escaped(t, n) && i <= |t[n..]|
    ensures BareStars(t, n + i) == BareStars(t[n..], i)
    decreases |t| - i
  {
    if n + i < |t| {
      BareStarFrom(t, n, i);
      BareStarsFrom(t, n, i + 1);
    }
  }

  /** `n` is where the first byte, with the byte it escapes, ends. */
  predicate FirstEnds(t: string, n: nat)
  {
    t != "" && n == (if t[0] == '\\' then 2 else 1) && n <= |t|
  }

  lemma FirstToken(t: string, n: nat)
    requires FirstEnds(t, n)
    ensures !Escaped(t, n)
    ensures forall i: nat :: i < n ==> (BareStar(t, i) <==> i == 0 && t[0] == '*')
  {
    assert !Escaped(t, 0);
    assert Escaped(t, 1) <==> t[0] == '\\';
    assert n == 2 ==> (Escaped(t, 2) <==> t[1] == '\\' && !Escaped(t, 1));
  }

  lemma CountFromSecond(t: string, n: nat)
    requires FirstEnds(t, n)
    ensures BareStars(t, 0) == (if t[0] == '*' then 1 else 0) + BareStars(t[n..], 0)
  {
    FirstToken(t, n);
    BareStarsFrom(t, n, 0);
    assert BareStars(t, 0) == (if BareStar(t, 0) then 1 else 0) + BareStars(t, 1);
    assert n == 2 ==> !BareStar(t, 1) && BareStars(t, 1) == BareStars(t, 2);
  }

  lemma DoubleStarFromSecond(t: string, n: nat)
    requires FirstEnds(t, n)
    ensures HasDoubleStar(t) <==> (t[0] == '*' && |t| > 1 && t[1] == '*') || HasDoubleStar(t[n..])
  {
    FirstToken(t, n);
    assert t[0] == '*' && |t| > 1 ==> !Escaped(t, 1);
    if i: nat :| BareStar(t, i) && BareStar(t, i + 1) {
      if i >= n {
        BareStarFrom(t, n, i - n);
        BareStarFrom(t, n, i - n + 1);
      }
    }
    if i: nat :| BareStar(t[n..], i) && BareStar(t[n..], i + 1) {
      BareStarFrom(t, n, i);
      BareStarFrom(t, n, i + 1);
      assert BareStar(t, n + i) && BareStar(t, (n + i) + 1);
    }
    if t[0] == '*' && |t| > 1 && t[1] == '*' {
      assert BareStar(t, 0) && BareStar(t, 0 + 1);
    }
  }

  /**
   A plain segment is refused for two bare stars side by side wherever they stand, else for
   a bare `\` at the end, and for nothing else; one that is read has a run more than bare stars.
   */
  lemma {:induction false} RefusedExactly(t: string)
    ensures ReadRuns(t) == Failure(StarsNotAlone) <==> HasDoubleStar(t)
    ensures ReadRuns(t) == Failure(NothingAfterBackslash) <==> !HasDoubleStar(t) && EndsBare(t)
    ensures ReadRuns(t).Success? ==> |ReadRuns(t).value| == BareStars(t, 0) + 1
    decreases |t|
  {
    assert !Escaped(t, 0);
    if t != "" && t != "\\" {
      var n := if t[0] == '\\' then 2 else 1;
      FirstToken(t, n);
      CountFromSecond(t, n);
      DoubleStarFromSecond(t, n);
      EndsBareFrom(t, n);
      RefusedExactly(t[n..]);
    }
  }

  ghost predicate MalformedText(t: string)
  {
    t != "**" && (HasDoubleStar(t) || EndsBare(t))
  }

  lemma MalformedTextIs(t: string)
    ensures ReadSegment(t).Failure? <==> MalformedText(t)
  {
    RefusedExactly(t);
    var r := ReadRuns(t);
    if r.Failure? {
      assert r.error == StarsNotAlone || r.error == NothingAfterBackslash;
    }
  }

  ghost predicate Malformed(texts: seq<string>)
  {
    exists i :: 0 <= i < |texts| && MalformedText(texts[i])
  }

  lemma MalformedIs(texts: seq<string>)
    ensures AllRead(texts) <==> !Malformed(texts)
  {
    if !AllRead(texts) {
      var i :| 0 <= i < |texts| && !ReadSegment(texts[i]).Success?;
      MalformedTextIs(texts[i]);
    }
    if Malformed(texts) {
      var i :| 0 <= i < |texts| && MalformedText(texts[i]);
      MalformedTextIs(texts[i]);
    }
  }

  /** A pattern is refused exactly when some segment other than `**` is malformed. */
  lemma ParseFailsExactly(pattern: string)
    ensures Parse(pattern).Failure? <==> Malformed(Split(pattern, '/'))
  {
    AcceptedIs(pattern);
    MalformedIs(Split(pattern, '/'));
  }

  /** The error is what is wrong with the first malformed segment. */
  lemma ParseErrorIs(pattern: string, k: nat)
    requires k < |Split(pattern, '/')| && MalformedText(Split(pattern, '/')[k])
    requires !Malformed(Split(pattern, '/')[..k])
    ensures Parse(pattern) ==
            Failure(if HasDoubleStar(Split(pattern, '/')[k]) then StarsNotAlone else NothingAfterBackslash)
  {
    var texts := Split(pattern, '/');
    MalformedIs(texts[..k]);
    RefusedExactly(texts[k]);
    TryMapFails(texts, k, ReadSegment);
  }

  /**
   The pattern is split before escapes are read, so a `\` before any `/` has nothing after
   it and the pattern is refused; for just that, where nothing else is wrong up to there.
   */
  lemma SlashCannotBeEscaped(a: string, b: string)
    requires EndsBare(a)
    ensures Parse(a + "/" + b).Failure?
    ensures !Malformed(ButLast(Split(a, '/'))) && !HasDoubleStar(LastPiece(a)) ==>
              Parse(a + "/" + b) == Failure(NothingAfterBackslash)
  {
    var whole, k := a + "/" + b, |Split(a, '/')| - 1;
    PiecesOfPair(a, b);
    LastPieceEndsBare(a);
    assert !EndsBare("**");
    assert MalformedText(Split(whole, '/')[k]);
    ParseFailsExactly(whole);
    if !Malformed(ButLast(Split(a, '/'))) && !HasDoubleStar(LastPiece(a)) {
      ParseErrorIs(whole, k);
    }
  }

  lemma PiecesOfPair(a: string, b: string)
    ensures var k, pieces := |Split(a, '/')| - 1, Split(a + "/" + b, '/');
            k < |pieces| && pieces[k] == LastPiece(a) && pieces[..k] == ButLast(Split(a, '/'))
  {
    SplitOfConcat(a, '/', b);
  }

  function ButLast(pieces: seq<string>): seq<string>
    requires pieces != []
  {
    pieces[..|pieces| - 1]
  }

  function LastPiece(a: string): string
  {
    Split(a, '/')[|Split(a, '/')| - 1]
  }

  lemma LastPieceOfRest(a: string, k: nat)
    requires k == IndexByte(a, '/')
    ensures LastPiece(a) == LastPiece(a[k + 1..])
  {
    LastAfter(a[..k], Split(a[k + 1..], '/'));
  }

  lemma LastAfter(x: string, rest: seq<string>)
    requires rest != []
    ensures ([x] + rest)[|[x] + rest| - 1] == rest[|rest| - 1]
  {
  }

  /** A byte's escapes do not reach past the `/` before it, so they are those of the last piece. */
  lemma {:induction false} LastPieceEndsBare(a: string)
    requires EndsBare(a)
    ensures EndsBare(LastPiece(a))
    decreases |a|
  {
    var k := IndexByte(a, '/');
    IndexByteSpec(a, '/');
    if k < 0 {
      SplitWithout(a, '/');
    } else {
      assert k < |a| - 1 && !Escaped(a, k + 1);
      EndsBareFrom(a, k + 1);
      LastPieceOfRest(a, k);
      LastPieceEndsBare(a[k + 1..]);
    }
  }
}

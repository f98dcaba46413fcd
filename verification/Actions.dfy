/** The names of actions, as lists of words. */
module Actions {
  import opened Lists
  import opened Text
  import opened Sifting
  import opened Scopes

  const ACTION_ALL: string := "*"

  /** The names of all actions; `ACTION_ALL` stands for every one of them. */
  const ACTIONS: seq<string> := ["pull", "push", "delete", "tag", "catalog", "search", "admin"]

  function Known(a: string): bool
  {
    a == ACTION_ALL || a in ACTIONS
  }

  /** The known among all the trimmed pieces of all the values, in order. */
  function ReadActions(vs: seq<string>): seq<string>
  {
    Sift(AllPieces(vs), Known)
  }

  method ParseActions(vs: seq<string>) returns (out: seq<string>)
    ensures out == ReadActions(vs)
  {
    out := [];
    for i := 0 to |vs|
      invariant out == Sift(AllPieces(vs[..i]), Known)
    {
      var pieces := Split(vs[i], ',');
      ghost var before := out;
      for k := 0 to |pieces|
        invariant out == before + Sift(pieces[..k], Known)
      {
        var a := TrimSpace(pieces[k]);
        SiftStep(pieces, k, Known);
        if a == ACTION_ALL || a in ACTIONS {
          out := out + [a];
        }
      }
      assert pieces[..|pieces|] == pieces;
      FlatMapStep(vs, i, PiecesOf);
      SiftOfConcat(AllPieces(vs[..i]), pieces, Known);
    }
    assert vs[..|vs|] == vs;
  }

  /** `Strings`: a new array holding the same names. */
  method Strings(actions: seq<string>) returns (out: array<string>)
    ensures fresh(out) && out[..] == actions
  {
    out := new string[|actions|];
    for i := 0 to |actions|
      invariant out[..i] == actions[..i]
    {
      out[i] := actions[i];
    }
  }

  // ---------- the known names ----------

  /** The known names, one by one. */
  lemma KnownExactly(a: string)
    ensures Known(a) <==>
            || a == "*" || a == "pull" || a == "push" || a == "delete"
            || a == "tag" || a == "catalog" || a == "search" || a == "admin"
  {
    assert ACTIONS[0] == "pull" && ACTIONS[1] == "push" && ACTIONS[2] == "delete" && ACTIONS[3] == "tag";
    assert ACTIONS[4] == "catalog" && ACTIONS[5] == "search" && ACTIONS[6] == "admin";
  }

  /** No known name is empty, holds a comma or a colon, or has white space to trim. */
  lemma KnownIsPlain(a: string)
    requires Known(a)
    ensures Trimmed(a) && a != "" && ',' !in a && ':' !in a
  {
    KnownExactly(a);
    PlainEnds(a);
  }

  lemma PlainEnds(a: string)
    requires a != "" && Plain(a[0]) && Plain(a[|a| - 1])
    ensures Trimmed(a)
  {
  }

  predicate Plain(c: char)
  {
    c == '*' || 'a' <= c <= 'z'
  }

  // ---------- laws ----------

  /** A list of words is read back as it was exactly when each is a known action. */
  lemma WordsRoundTrip(actions: seq<string>)
    ensures ReadActions(actions) == actions <==> forall a :: a in actions ==> Known(a)
  {
    if forall a :: a in actions ==> Known(a) {
      forall a | a in actions ensures Trimmed(a) && ',' !in a {
        KnownIsPlain(a);
      }
      assert forall i :: 0 <= i < |actions| ==> actions[i] in actions;
      AllPiecesOfWords(actions);
      SiftOfSifted(actions, Known);
    } else {
      SiftedIs(AllPieces(actions), Known);
    }
  }

  /** One word is read back as it was exactly when it is one of these eight. */
  lemma WordIsRead(a: string)
    ensures ReadActions([a]) == [a] <==>
            || a == "*" || a == "pull" || a == "push" || a == "delete"
            || a == "tag" || a == "catalog" || a == "search" || a == "admin"
  {
    KnownExactly(a);
    WordsRoundTrip([a]);
    assert a in [a];
  }

  /** A comma in a value separates pieces and adds none. */
  lemma ReadOfComma(a: string, b: string)
    ensures ReadActions([a + "," + b]) == ReadActions([a]) + ReadActions([b])
  {
    FlatMapOfOne(a, PiecesOf);
    FlatMapOfOne(b, PiecesOf);
    FlatMapOfOne(a + "," + b, PiecesOf);
    SplitOfConcat(a, ',', b);
    SiftOfConcat(Split(a, ','), Split(b, ','), Known);
  }

  /** A piece without commas is read as what is left of it once trimmed, when that is one of the eight. */
  lemma ReadOfPiece(piece: string)
    requires ',' !in piece
    ensures var a := TrimSpace(piece);
            ReadActions([piece]) ==
            if || a == "*" || a == "pull" || a == "push" || a == "delete"
               || a == "tag" || a == "catalog" || a == "search" || a == "admin"
            then [a] else []
  {
    KnownExactly(TrimSpace(piece));
    FlatMapOfOne(piece, PiecesOf);
    SplitWithout(piece, ',');
    SiftStep([piece], 0, Known);
    assert [piece][..1] == [piece];
  }

  /** One value with commas between says the same as the values did. */
  lemma JoinedReadsTheSame(vs: seq<string>)
    ensures ReadActions([Join(vs, ',')]) == ReadActions(vs)
  {
    FlatMapOfOne(Join(vs, ','), PiecesOf);
    if vs == [] {
      SplitWithout("", ',');
      SiftStep([""], 0, Known);
      assert [""][..1] == [""] && TrimSpace("") == "";
    } else {
      AllPiecesOfJoin(vs);
    }
  }

  /** What was read is read back from its words, and from all of them in one value. */
  lemma ReadIsNormal(vs: seq<string>)
    ensures ReadActions(ReadActions(vs)) == ReadActions(vs)
    ensures ReadActions([Join(ReadActions(vs), ',')]) == ReadActions(vs)
  {
    SiftedIs(AllPieces(vs), Known);
    WordsRoundTrip(ReadActions(vs));
    JoinedReadsTheSame(ReadActions(vs));
  }

  /** Two lists of values are read one after the other. */
  lemma ReadOfConcat(vs: seq<string>, ws: seq<string>)
    ensures ReadActions(vs + ws) == ReadActions(vs) + ReadActions(ws)
  {
    FlatMapOfConcat(vs, ws, PiecesOf);
    SiftOfConcat(AllPieces(vs), AllPieces(ws), Known);
  }

  /** The actions of a scope name the same known actions as the text they were read from. */
  lemma ScopeActionsReadTheSame(text: string)
    ensures ReadActions(ActionsOf(text)) == ReadActions([text])
  {
    var pieces := Split(text, ',');
    SplitSpec(text, ',');
    SiftAvoids(pieces, NotEmpty, ',');
    AllPiecesOfWords(ActionsOf(text));
    forall a | Known(a) ensures NotEmpty(a) {
      KnownIsPlain(a);
    }
    SiftTwice(pieces, NotEmpty, Known);
    FlatMapOfOne(text, PiecesOf);
  }

  lemma ActionsOfRead(v: string)
    requires ReadScope(v).Success?
    ensures ReadScope(v).value.actions == ActionsOf(v[LastIndexByte(v, ':') + 1..])
  {
  }

  /** So what a scope grants is what its text says after the last colon. */
  lemma ScopeGrants(v: string)
    requires ReadScope(v).Success?
    ensures ReadActions(ReadScope(v).value.actions) == ReadActions([v[LastIndexByte(v, ':') + 1..]])
  {
    ActionsOfRead(v);
    ScopeActionsReadTheSame(v[LastIndexByte(v, ':') + 1..]);
  }
}

/**
 The scopes of the token flow, `type:name:actions`; see "Token Scope Documentation", section
 "Resource Scope Grammar", of the CNCF Distribution registry.
 */
module Scopes {
  import opened Wrappers
  import opened Text
  import opened Sifting

  datatype Scope = Scope(kind: string, name: string, actions: seq<string>)

  function NotEmpty(a: string): bool
  {
    a != ""
  }

  /** `repository(plugin)` is a repository. A `(` at the very start is left alone. */
  function CutParen(t: string): string
  {
    var k := IndexByte(t, '(');
    if k > 0 then t[..k] else t
  }

  function ActionsOf(text: string): seq<string>
  {
    Sift(Split(text, ','), NotEmpty)
  }

  /** What `ParseScope` makes of a text; an error holds the text it is about. */
  function ReadScope(v: string): Result<Scope, string>
  {
    var i := IndexByte(v, ':');
    var j := LastIndexByte(v, ':');
    if i <= 0 || j <= i then Failure(v)
    else Success(Scope(CutParen(v[..i]), v[i + 1..j], ActionsOf(v[j + 1..])))
  }

  /** The loop of `ParseScope` over the pieces after the last colon. */
  method ParseActionPieces(pieces: seq<string>) returns (actions: seq<string>)
    ensures actions == Sift(pieces, NotEmpty)
  {
    actions := [];
    for n := 0 to |pieces|
      invariant actions == Sift(pieces[..n], NotEmpty)
    {
      var a := TrimSpace(pieces[n]);
      SiftStep(pieces, n, NotEmpty);
      if a != "" {
        actions := actions + [a];
      }
    }
    assert pieces[..|pieces|] == pieces;
  }

  method ParseScope(v: string) returns (r: Result<Scope, string>)
    ensures r == ReadScope(v)
  {
    var i := IndexByte(v, ':');
    var j := LastIndexByte(v, ':');
    if i <= 0 || j <= i {
      return Failure(v);
    }
    var t := v[..i];
    var k := IndexByte(t, '(');
    if k > 0 {
      t := t[..k];
    }
    var actions := ParseActionPieces(Split(v[j + 1..], ','));
    return Success(Scope(t, v[i + 1..j], actions));
  }

  function ToString(s: Scope): string
  {
    s.kind + ":" + s.name + ":" + Join(s.actions, ',')
  }

  // ---------- which texts are scopes ----------

  /** `v` is a type, a name and actions; of the three only the name may hold a colon. */
  ghost predicate Shape(v: string, kind: string, name: string, actions: string)
  {
    && v == kind + ":" + name + ":" + actions
    && kind != "" && ':' !in kind && ':' !in actions
  }

  lemma {:induction false} LastIndexByteOfSuffix(a: string, c: char, b: string)
    requires c !in b
    ensures LastIndexByte(a + [c] + b, c) == |a|
    decreases |b|
  {
    var s := a + [c] + b;
    assert b == "" ==> s[|s| - 1] == c;
    if b != "" {
      assert s[..|s| - 1] == a + [c] + b[..|b| - 1];
      LastIndexByteOfSuffix(a, c, b[..|b| - 1]);
    }
  }

  lemma ColonsOfShape(v: string, kind: string, name: string, actions: string)
    requires Shape(v, kind, name, actions)
    ensures IndexByte(v, ':') == |kind| && LastIndexByte(v, ':') == |kind| + 1 + |name|
  {
    assert v == kind + [':'] + (name + ":" + actions);
    IndexByteOfPrefix(kind, ':', name + ":" + actions);
    assert v == (kind + ":" + name) + [':'] + actions;
    LastIndexByteOfSuffix(kind + ":" + name, ':', actions);
  }

  /** A text falls into its three parts in one way, and is read by them. */
  lemma ReadOfShape(v: string, kind: string, name: string, actions: string)
    requires Shape(v, kind, name, actions)
    ensures ReadScope(v) == Success(Scope(CutParen(kind), name, ActionsOf(actions)))
  {
    ColonsOfShape(v, kind, name, actions);
    var i, j := |kind|, |kind| + 1 + |name|;
    assert v[..i] == kind && v[i + 1..j] == name && v[j + 1..] == actions;
  }

  /** Where the two colons are that a text was read by. */
  lemma ColonsOfRead(v: string) returns (i: nat, j: nat)
    requires ReadScope(v).Success?
    ensures 0 < i < j < |v| && v[i] == v[j] == ':' && ':' !in v[..i] && ':' !in v[j + 1..]
    ensures j == LastIndexByte(v, ':')
    ensures ReadScope(v).value == Scope(CutParen(v[..i]), v[i + 1..j], ActionsOf(v[j + 1..]))
  {
    i, j := IndexByte(v, ':'), LastIndexByte(v, ':');
    IndexByteSpec(v, ':');
    LastIndexByteSpec(v, ':');
  }

  lemma ShapeOfRead(v: string) returns (kind: string, name: string, actions: string)
    requires ReadScope(v).Success?
    ensures Shape(v, kind, name, actions)
  {
    var i, j := ColonsOfRead(v);
    kind, name, actions := v[..i], v[i + 1..j], v[j + 1..];
    assert v == v[..i] + [v[i]] + v[i + 1..j] + [v[j]] + v[j + 1..];
  }

  ghost predicate TwoColons(v: string)
  {
    exists a, b :: 0 <= a < b < |v| && v[a] == ':' && v[b] == ':'
  }

  lemma TwoColonsIs(v: string)
    ensures TwoColons(v) <==> 0 <= IndexByte(v, ':') < LastIndexByte(v, ':')
  {
    IndexByteSpec(v, ':');
    LastIndexByteSpec(v, ':');
    if a, b :| 0 <= a < b < |v| && v[a] == ':' && v[b] == ':' {
      IndexByteNotAfter(v, ':', a);
      LastIndexByteNotBefore(v, ':', b);
    }
  }

  /** A text is read exactly when it has two colons and begins with neither. */
  lemma ReadsExactly(v: string)
    ensures ReadScope(v).Success? <==> TwoColons(v) && v[0] != ':'
  {
    TwoColonsIs(v);
    IndexByteSpec(v, ':');
    assert IndexByte(v, ':') == 0 <==> v != "" && v[0] == ':';
  }

  // ---------- the type ----------

  /** The type is what stands before the first `(`, as if the rest up to the colon were not there. */
  lemma TypeIsCut(a: string, b: string, name: string, actions: string)
    requires a != "" && '(' !in a && ':' !in a && ':' !in b && ':' !in actions
    ensures var r := ReadScope(a + "(" + b + ":" + name + ":" + actions);
            r.Success? && r.value.kind == a && r == ReadScope(a + ":" + name + ":" + actions)
  {
    IndexByteOfPrefix(a, '(', b);
    assert (a + ['('] + b)[..|a|] == a;
    IndexByteSpec(a, '(');
    assert ':' !in a + "(" + b;
    ReadOfShape(a + "(" + b + ":" + name + ":" + actions, a + "(" + b, name, actions);
    ReadOfShape(a + ":" + name + ":" + actions, a, name, actions);
  }

  /** A type with no `(`, or with one at its very start, is kept whole. */
  lemma TypeIsKept(kind: string, name: string, actions: string)
    requires kind != "" && ':' !in kind && ':' !in actions && ('(' !in kind || kind[0] == '(')
    ensures var r := ReadScope(kind + ":" + name + ":" + actions);
            r.Success? && r.value.kind == kind && r.value.name == name
  {
    IndexByteSpec(kind, '(');
    ReadOfShape(kind + ":" + name + ":" + actions, kind, name, actions);
  }

  // ---------- the actions ----------

  /** A comma separates actions and adds none. */
  lemma ActionsOfConcat(a: string, b: string)
    ensures ActionsOf(a + "," + b) == ActionsOf(a) + ActionsOf(b)
  {
    SplitOfConcat(a, ',', b);
    SiftOfConcat(Split(a, ','), Split(b, ','), NotEmpty);
  }

  /** What stands between commas is an action once trimmed, unless nothing is left of it. */
  lemma ActionsOfPiece(piece: string)
    requires ',' !in piece
    ensures ActionsOf(piece) == if TrimSpace(piece) == "" then [] else [TrimSpace(piece)]
  {
    SplitWithout(piece, ',');
    SiftStep([piece], 0, NotEmpty);
    assert [piece][..1] == [piece];
  }

  // ---------- printing and reading ----------

  ghost predicate GoodAction(a: string)
  {
    a != "" && Trimmed(a) && ',' !in a && ':' !in a
  }

  /** What any scope that was read is like. */
  ghost predicate Printable(s: Scope)
  {
    && s.kind != "" && ':' !in s.kind && IndexByte(s.kind, '(') <= 0
    && forall a :: a in s.actions ==> GoodAction(a)
  }

  lemma CutParenIs(t: string)
    requires t != "" && ':' !in t
    ensures var k := CutParen(t); k != "" && ':' !in k && IndexByte(k, '(') <= 0
  {
    var k := IndexByte(t, '(');
    IndexByteSpec(t, '(');
    if k > 0 {
      IndexByteSpec(t[..k], '(');
      StretchAvoids(t, 0, k, ':');
    }
  }

  lemma ActionsOfIs(text: string)
    requires ':' !in text
    ensures forall a :: a in ActionsOf(text) ==> GoodAction(a)
  {
    var pieces := Split(text, ',');
    SplitSpec(text, ',');
    PiecesAvoid(pieces, ',', ':');
    SiftedIs(pieces, NotEmpty);
    SiftAvoids(pieces, NotEmpty, ',');
    SiftAvoids(pieces, NotEmpty, ':');
  }

  /** What a join does not hold, no piece of it holds. */
  lemma {:induction false} PiecesAvoid(pieces: seq<string>, sep: char, c: char)
    requires c !in Join(pieces, sep)
    ensures Free(pieces, c)
    decreases |pieces|
  {
    if |pieces| > 1 {
      var rest := Join(pieces[1..], sep);
      assert Join(pieces, sep) == pieces[0] + [sep] + rest;
      PiecesAvoid(pieces[1..], sep, c);
      assert pieces == [pieces[0]] + pieces[1..];
    } else if |pieces| == 1 {
      assert pieces[0] == Join(pieces, sep);
    }
  }

  lemma ReadIsPrintable(v: string)
    requires ReadScope(v).Success?
    ensures Printable(ReadScope(v).value)
  {
    var kind, name, actions := ShapeOfRead(v);
    ReadOfShape(v, kind, name, actions);
    CutParenIs(kind);
    ActionsOfIs(actions);
  }

  lemma ActionsOfJoin(actions: seq<string>)
    requires forall a :: a in actions ==> GoodAction(a)
    ensures ActionsOf(Join(actions, ',')) == actions && ':' !in Join(actions, ',')
  {
    assert forall i :: 0 <= i < |actions| ==> actions[i] in actions;
    JoinAvoids(actions, ',', ':');
    if actions == [] {
      SplitWithout("", ',');
      assert TrimSpace("") == "";
      assert Sift([""], NotEmpty) == [] by { assert [""][..0] == []; }
    } else {
      SplitOfJoin(actions, ',');
      SiftOfSifted(actions, NotEmpty);
    }
  }

  /** Reading what was printed gives a scope back exactly when it is one that could be read. */
  lemma RoundTrip(s: Scope)
    ensures ReadScope(ToString(s)) == Success(s) <==> Printable(s)
  {
    if Printable(s) {
      ActionsOfJoin(s.actions);
      ReadOfShape(ToString(s), s.kind, s.name, Join(s.actions, ','));
    }
    if ReadScope(ToString(s)) == Success(s) {
      ReadIsPrintable(ToString(s));
    }
  }

  /** Printing what was read and reading it again changes nothing. */
  lemma NormalForm(v: string)
    requires ReadScope(v).Success?
    ensures ReadScope(ToString(ReadScope(v).value)) == ReadScope(v)
  {
    ReadIsPrintable(v);
    RoundTrip(ReadScope(v).value);
  }

  lemma ShapeIsUnique(v: string, k: string, n: string, a: string, l: string, m: string, b: string)
    requires Shape(v, k, n, a) && Shape(v, l, m, b)
    ensures k == l && n == m && a == b
  {
    ColonsOfShape(v, k, n, a);
    ColonsOfShape(v, l, m, b);
    ShapeAt(v, k, n, a);
    ShapeAt(v, l, m, b);
  }

  lemma ShapeAt(v: string, kind: string, name: string, actions: string)
    requires Shape(v, kind, name, actions)
    ensures var i, j := |kind|, |kind| + 1 + |name|;
            j < |v| && v[..i] == kind && v[i + 1..j] == name && v[j + 1..] == actions
  {
  }

  ghost predicate GoodActions(text: string, actions: seq<string>)
  {
    text == Join(actions, ',') && forall a :: a in actions ==> GoodAction(a)
  }

  /**
   Printing what was read gives the text back exactly when its type has nothing to cut and
   its actions, none included, are trimmed words with one comma between each and the next.
   */
  lemma PrintsBackExactly(v: string, kind: string, name: string, actions: string)
    requires Shape(v, kind, name, actions)
    ensures ReadScope(v).Success?
    ensures ToString(ReadScope(v).value) == v <==>
            ('(' !in kind || kind[0] == '(') && exists words :: GoodActions(actions, words)
  {
    ReadOfShape(v, kind, name, actions);
    IndexByteSpec(kind, '(');
    var s, words := ReadScope(v).value, ActionsOf(actions);
    ActionsOfIs(actions);
    CutParenIs(kind);
    ActionsOfJoin(words);
    assert Shape(ToString(s), s.kind, name, Join(words, ','));
    if ToString(s) == v {
      ShapeIsUnique(v, kind, name, actions, s.kind, name, Join(words, ','));
      assert GoodActions(actions, words);
    }
    if given :| GoodActions(actions, given) {
      ActionsOfJoin(given);
    }
  }
}

/** Several scopes at once: `ParseScopes`. */
module ScopeLists {
  import opened Wrappers
  import opened Lists
  import opened Text
  import opened Sifting
  import opened Scopes

  /** The fields of every value, in order. */
  function AllFields(values: seq<string>): seq<string>
  {
    FlatMap(values, Fields)
  }

  /** Every field as a scope, or the first field that is not one. */
  function ReadFields(fields: seq<string>): (r: Result<seq<Scope>, string>)
    ensures r.Success? ==> |r.value| == |fields|
  {
    TryMap(fields, ReadScope)
  }

  function ReadScopes(values: seq<string>): Result<seq<Scope>, string>
  {
    ReadFields(AllFields(values))
  }

  /** The inner loop of `ParseScopes`: the fields of one value, after the `before` of others. */
  method ParseFields(fields: seq<string>, ghost before: seq<string>, got: seq<Scope>)
    returns (r: Result<seq<Scope>, string>)
    requires ReadFields(before) == Success(got)
    ensures r == ReadFields(before + fields)
  {
    var out := got;
    assert before + fields[..0] == before;
    for k := 0 to |fields|
      invariant ReadFields(before + fields[..k]) == Success(out)
    {
      var s := ParseScope(fields[k]);
      TryMapTurn(before, fields, k, ReadScope, out);
      if s.Failure? {
        return Failure(s.error);
      }
      out := out + [s.value];
    }
    assert fields[..|fields|] == fields;
    return Success(out);
  }

  /** What the fields up to those of value `i` are read as; an error stands for all the values. */
  lemma ValueTurn(values: seq<string>, i: nat)
    requires i < |values|
    ensures AllFields(values[..i + 1]) == AllFields(values[..i]) + Fields(values[i])
    ensures ReadScopes(values[..i + 1]).Failure? ==> ReadScopes(values) == ReadScopes(values[..i + 1])
  {
    FlatMapStep(values, i, Fields);
    FlatMapCut(values, i + 1, Fields);
    if ReadScopes(values[..i + 1]).Failure? {
      TryMapStands(AllFields(values[..i + 1]), AllFields(values[i + 1..]), ReadScope);
    }
  }

  method ParseScopes(values: seq<string>) returns (r: Result<seq<Scope>, string>)
    ensures r == ReadScopes(values)
  {
    var out: seq<Scope> := [];
    assert values[..|values|] == values;
    for i := 0 to |values|
      invariant ReadScopes(values[..i]) == Success(out)
    {
      ValueTurn(values, i);
      var more := ParseFields(Fields(values[i]), AllFields(values[..i]), out);
      if more.Failure? {
        return Failure(more.error);
      }
      out := more.value;
    }
    return Success(out);
  }

  // ---------- what the result depends on ----------

  /** The scopes are read exactly when each field is one, and each as it would be alone. */
  lemma ReadFieldsIs(fields: seq<string>)
    ensures ReadFields(fields).Success? <==> AllSucceed(fields, ReadScope)
    ensures ReadFields(fields).Success? ==>
              forall i :: 0 <= i < |fields| ==> ReadScope(fields[i]) == Success(ReadFields(fields).value[i])
  {
    TryMapIs(fields, ReadScope);
  }

  lemma ErrorNamesText(v: string)
    ensures ReadScope(v).Failure? ==> ReadScope(v).error == v
  {
  }

  /** The error is the first field that is not a scope. */
  lemma FirstBadField(fields: seq<string>, k: nat)
    requires k < |fields| && AllSucceed(fields[..k], ReadScope) && ReadScope(fields[k]).Failure?
    ensures ReadFields(fields) == Failure(fields[k])
  {
    ErrorNamesText(fields[k]);
    TryMapFails(fields, k, ReadScope);
  }

  lemma FieldsOfJoin(v: string, rest: seq<string>)
    requires rest != []
    ensures Fields(Join([v] + rest, ' ')) == Fields(v) + Fields(Join(rest, ' '))
  {
    JoinFirst(v, rest, ' ');
    FieldsOfConcat(v, [' '], Join(rest, ' '));
  }

  lemma {:induction false} AllFieldsOfJoin(values: seq<string>)
    ensures AllFields(values) == Fields(Join(values, ' '))
    decreases |values|
  {
    if values != [] {
      var rest := values[1..];
      FlatMapFirst(values, Fields);
      if rest == [] {
        assert Fields(values[0]) + [] == Fields(values[0]);
      } else {
        AllFieldsOfJoin(rest);
        FieldsOfJoin(values[0], rest);
        assert [values[0]] + rest == values;
      }
    }
  }

  /** However the scopes are spread over values, one value with spaces between is read the same. */
  lemma JoinedValuesReadTheSame(values: seq<string>)
    ensures ReadScopes([Join(values, ' ')]) == ReadScopes(values)
  {
    AllFieldsOfJoin(values);
    FlatMapOfOne(Join(values, ' '), Fields);
  }

  function Spaced(group: seq<string>): seq<string>
  {
    [Join(group, ' ')]
  }

  function Itself(group: seq<string>): seq<string>
  {
    group
  }

  /** Grouping the values in any way, and joining each group with spaces, changes nothing. */
  lemma {:induction false} RegroupedFields(groups: seq<seq<string>>)
    ensures AllFields(FlatMap(groups, Spaced)) == AllFields(FlatMap(groups, Itself))
    decreases |groups|
  {
    if groups != [] {
      var n := |groups| - 1;
      RegroupedFields(groups[..n]);
      FlatMapOfConcat(FlatMap(groups[..n], Itself), groups[n], Fields);
      FlatMapOfConcat(FlatMap(groups[..n], Spaced), Spaced(groups[n]), Fields);
      FlatMapOfOne(Join(groups[n], ' '), Fields);
      AllFieldsOfJoin(groups[n]);
    }
  }

  lemma RegroupedValuesReadTheSame(groups: seq<seq<string>>)
    ensures ReadScopes(FlatMap(groups, Spaced)) == ReadScopes(FlatMap(groups, Itself))
  {
    RegroupedFields(groups);
  }

  // ---------- printing a list ----------

  function PrintEach(scopes: seq<Scope>): (texts: seq<string>)
    ensures |texts| == |scopes|
    ensures forall i :: 0 <= i < |scopes| ==> texts[i] == ToString(scopes[i])
  {
    seq(|scopes|, i requires 0 <= i < |scopes| => ToString(scopes[i]))
  }

  ghost predicate AllPrintable(scopes: seq<Scope>)
  {
    forall i :: 0 <= i < |scopes| ==> Printable(scopes[i]) && Solid(ToString(scopes[i]))
  }

  lemma AllFieldsOfSolid(texts: seq<string>)
    requires forall i :: 0 <= i < |texts| ==> texts[i] != "" && Solid(texts[i])
    ensures AllFields(texts) == texts
  {
    forall i | 0 <= i < |texts| ensures Fields(texts[i]) == [texts[i]] {
      FieldsOfSolid(texts[i]);
    }
    FlatMapFixed(texts, Fields);
  }

  lemma PrintEachReads(scopes: seq<Scope>)
    requires AllPrintable(scopes)
    ensures ReadFields(PrintEach(scopes)) == Success(scopes)
  {
    var texts := PrintEach(scopes);
    forall i | 0 <= i < |texts| ensures ReadScope(texts[i]) == Success(scopes[i]) {
      RoundTrip(scopes[i]);
    }
    TryMapIs(texts, ReadScope);
    assert ReadFields(texts).value == scopes;
  }

  // ---------- what is read from fields holds no white space ----------

  lemma {:induction false} PiecesAreSolid(pieces: seq<string>, sep: char)
    requires Solid(Join(pieces, sep))
    ensures forall i :: 0 <= i < |pieces| ==> Solid(pieces[i])
    decreases |pieces|
  {
    if |pieces| == 1 {
      assert pieces[0] == Join(pieces, sep);
    } else if |pieces| > 1 {
      var whole, rest := Join(pieces, sep), Join(pieces[1..], sep);
      var m := |pieces[0]|;
      assert whole == pieces[0] + [sep] + rest;
      SolidStretch(whole, 0, m);
      SolidStretch(whole, m + 1, |whole|);
      assert whole[0..m] == pieces[0] && whole[m + 1..|whole|] == rest;
      PiecesAreSolid(pieces[1..], sep);
      assert forall i :: 0 < i < |pieces| ==> pieces[i] == pieces[1..][i - 1];
    }
  }

  lemma SolidIsTrimmed(s: string)
    requires Solid(s)
    ensures Trimmed(s)
  {
    assert s[0..] == s;
    SpaceTailIs(s);
  }

  lemma {:induction false} SiftIsSolid(pieces: seq<string>, keep: string -> bool)
    requires forall i :: 0 <= i < |pieces| ==> Solid(pieces[i])
    ensures forall i :: 0 <= i < |Sift(pieces, keep)| ==> Solid(Sift(pieces, keep)[i])
    decreases |pieces|
  {
    if pieces != [] {
      var n := |pieces| - 1;
      SiftIsSolid(pieces[..n], keep);
      SolidIsTrimmed(pieces[n]);
      TrimmedIsFixed(pieces[n]);
    }
  }

  lemma ActionsAreSolid(text: string)
    requires Solid(text)
    ensures Solid(Join(ActionsOf(text), ','))
  {
    SplitSpec(text, ',');
    PiecesAreSolid(Split(text, ','), ',');
    SiftIsSolid(Split(text, ','), NotEmpty);
    JoinSolid(ActionsOf(text), ',');
  }

  lemma SolidParts(f: string, i: nat, j: nat)
    requires Solid(f) && i < j < |f|
    ensures Solid(f[..i]) && Solid(f[i + 1..j]) && Solid(f[j + 1..])
  {
    SolidStretch(f, 0, i);
    SolidStretch(f, i + 1, j);
    SolidStretch(f, j + 1, |f|);
    assert f[0..i] == f[..i] && f[j + 1..|f|] == f[j + 1..];
  }

  lemma SolidScope(s: Scope)
    requires Solid(s.kind) && Solid(s.name) && Solid(Join(s.actions, ','))
    ensures Solid(ToString(s))
  {
    SolidAcross(s.kind, ':', s.name);
    SolidAcross(s.kind + [':'] + s.name, ':', Join(s.actions, ','));
    assert ToString(s) == s.kind + [':'] + s.name + [':'] + Join(s.actions, ',');
  }

  lemma CutIsSolid(t: string)
    requires Solid(t)
    ensures Solid(CutParen(t))
  {
    var n := |CutParen(t)|;
    SolidStretch(t, 0, n);
    assert t[0..n] == t[..n] == CutParen(t);
  }

  lemma ReadIsSolid(f: string)
    requires Solid(f) && ReadScope(f).Success?
    ensures Solid(ToString(ReadScope(f).value))
  {
    var i, j := ColonsOfRead(f);
    SolidParts(f, i, j);
    CutIsSolid(f[..i]);
    ActionsAreSolid(f[j + 1..]);
    SolidScope(Scope(CutParen(f[..i]), f[i + 1..j], ActionsOf(f[j + 1..])));
  }

  lemma AllFieldsAreSolid(values: seq<string>)
    ensures forall i :: 0 <= i < |AllFields(values)| ==> Solid(AllFields(values)[i])
  {
    forall i, f | 0 <= i < |values| && f in Fields(values[i]) ensures Solid(f) {
      FieldsAreSolid(values[i]);
    }
    FlatMapAll(values, Fields, Solid);
    assert forall i :: 0 <= i < |AllFields(values)| ==> AllFields(values)[i] in AllFields(values);
  }

  lemma ReadScopesArePrintable(values: seq<string>)
    requires ReadScopes(values).Success?
    ensures AllPrintable(ReadScopes(values).value)
  {
    var fields, scopes := AllFields(values), ReadScopes(values).value;
    AllFieldsAreSolid(values);
    ReadFieldsIs(fields);
    forall i | 0 <= i < |scopes| ensures Printable(scopes[i]) && Solid(ToString(scopes[i])) {
      assert ReadScope(fields[i]) == Success(scopes[i]);
      ReadIsPrintable(fields[i]);
      ReadIsSolid(fields[i]);
    }
  }

  /**
   Scopes printed with a space between are read back as they were exactly when each could
   be read alone and holds no white space.
   */
  lemma ListRoundTrip(scopes: seq<Scope>)
    ensures ReadScopes([Join(PrintEach(scopes), ' ')]) == Success(scopes) <==> AllPrintable(scopes)
  {
    if AllPrintable(scopes) {
      AllFieldsOfSolid(PrintEach(scopes));
      JoinedValuesReadTheSame(PrintEach(scopes));
      PrintEachReads(scopes);
    }
    if ReadScopes([Join(PrintEach(scopes), ' ')]) == Success(scopes) {
      ReadScopesArePrintable([Join(PrintEach(scopes), ' ')]);
    }
  }

  /** Whatever was read, printing all of it in one value and reading that gives the same scopes. */
  lemma ListNormalForm(values: seq<string>)
    requires ReadScopes(values).Success?
    ensures ReadScopes([Join(PrintEach(ReadScopes(values).value), ' ')]) == ReadScopes(values)
  {
    ReadScopesArePrintable(values);
    ListRoundTrip(ReadScopes(values).value);
  }
}

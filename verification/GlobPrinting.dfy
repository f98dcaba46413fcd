/** Writing segments out again, and patterns that stand for one name. */
module GlobPrinting {
  import opened Wrappers
  import opened Lists
  import opened Text
  import opened Language
  import opened Runs
  import opened Globs
  import opened GlobMeaning

  /** A `\` before every star and every `\`. */
  function Escape(s: string): string
  {
    if s == "" then "" else EscapeByte(s[0]) + Escape(s[1..])
  }

  function EscapeByte(c: char): string
  {
    if c == '*' || c == '\\' then ['\\', c] else [c]
  }

  function PrintRuns(parts: seq<string>): string
    requires parts != []
  {
    if |parts| == 1 then Escape(parts[0]) else Escape(parts[0]) + "*" + PrintRuns(parts[1..])
  }

  function PrintSegment(seg: Segment): string
    requires seg.Plain? ==> seg.parts != []
  {
    match seg
    case Deep => "**"
    case Plain(parts) => PrintRuns(parts)
  }

  function PrintAll(segs: seq<Segment>): (texts: seq<string>)
    requires HasRuns(segs)
    ensures |texts| == |segs|
    ensures forall i :: 0 <= i < |segs| ==> texts[i] == PrintSegment(segs[i])
  {
    seq(|segs|, i requires 0 <= i < |segs| => PrintSegment(segs[i]))
  }

  function Print(segs: seq<Segment>): string
    requires HasRuns(segs)
  {
    Join(PrintAll(segs), '/')
  }

  /** A run between two stars holds something, and no run holds a `/`. */
  predicate WellFormedRuns(parts: seq<string>)
  {
    && parts != []
    && (forall j :: 0 < j < |parts| - 1 ==> parts[j] != "")
    && forall j :: 0 <= j < |parts| ==> '/' !in parts[j]
  }

  predicate WellFormedSegment(seg: Segment)
  {
    seg.Plain? ==> WellFormedRuns(seg.parts)
  }

  predicate NoDoubledDeep(segs: seq<Segment>)
  {
    forall i :: 0 < i < |segs| ==> segs[i - 1].Plain? || segs[i].Plain?
  }

  predicate WellFormed(segs: seq<Segment>)
  {
    && segs != []
    && (forall i :: 0 <= i < |segs| ==> WellFormedSegment(segs[i]))
    && NoDoubledDeep(segs)
  }

  // ---------- what is read is well formed ----------

  lemma {:induction false} ReadRunsAreWellFormed(t: string)
    requires ReadRuns(t).Success? && '/' !in t
    ensures WellFormedRuns(ReadRuns(t).value)
    ensures var runs := ReadRuns(t).value; |runs| > 1 && runs[0] == "" ==> t != "" && t[0] == '*'
    decreases |t|
  {
    if t != "" {
      var n := if t[0] == '\\' then 2 else 1;
      ReadRunsAreWellFormed(t[n..]);
      var rest := ReadRuns(t[n..]).value;
      if t[0] == '*' {
        AfterStarIs(rest);
      } else {
        AfterByteIs(t[n - 1], rest);
      }
    }
  }

  lemma {:induction false} CollapseIsWellFormed(segs: seq<Segment>)
    requires forall i :: 0 <= i < |segs| ==> WellFormedSegment(segs[i])
    ensures forall i :: 0 <= i < |Collapse(segs)| ==> WellFormedSegment(Collapse(segs)[i])
    ensures NoDoubledDeep(Collapse(segs))
    ensures segs != [] ==> Collapse(segs) != []
    decreases |segs|
  {
    if segs != [] {
      CollapseIsWellFormed(segs[..|segs| - 1]);
    }
  }

  lemma {:induction false} CollapseOfCollapsed(segs: seq<Segment>)
    requires NoDoubledDeep(segs)
    ensures Collapse(segs) == segs
    decreases |segs|
  {
    if segs != [] {
      var n := |segs| - 1;
      CollapseOfCollapsed(segs[..n]);
      assert n > 0 ==> segs[n - 1].Plain? || segs[n].Plain?;
      assert segs == segs[..n] + [segs[n]];
    }
  }

  /** Every accepted pattern is read as well-formed segments. */
  lemma ParsedIsWellFormed(pattern: string)
    requires Accepted(pattern)
    ensures WellFormed(Parse(pattern).value.segs)
  {
    var texts := Split(pattern, '/');
    var segs := ReadAll(texts).value;
    SplitSpec(pattern, '/');
    ReadAllIs(texts);
    forall i | 0 <= i < |segs| ensures WellFormedSegment(segs[i]) {
      assert ReadSegment(texts[i]) == Success(segs[i]);
      if texts[i] != "**" {
        ReadRunsAreWellFormed(texts[i]);
      }
    }
    CollapseIsWellFormed(segs);
  }

  // ---------- what is well formed is read back ----------

  lemma ReadEscapedByte(c: char, next: string)
    ensures ReadRuns(EscapeByte(c) + next) == After([], [c], ReadRuns(next))
  {
    assert (EscapeByte(c) + next)[|EscapeByte(c)|..] == next;
  }

  lemma EscapeFirst(run: string, rest: string)
    requires run != ""
    ensures Escape(run) + rest == EscapeByte(run[0]) + (Escape(run[1..]) + rest)
  {
  }

  /** An escaped run is read as itself, whatever comes after it. */
  lemma {:induction false} ReadEscaped(run: string, rest: string)
    ensures ReadRuns(Escape(run) + rest) == After([], run, ReadRuns(rest))
    decreases |run|
  {
    if run == "" {
      assert Escape(run) + rest == rest;
      AfterNothing(ReadRuns(rest));
    } else {
      EscapeFirst(run, rest);
      ReadEscapedByte(run[0], Escape(run[1..]) + rest);
      ReadEscaped(run[1..], rest);
      AfterRun([run[0]], run[1..], ReadRuns(rest));
      assert [run[0]] + run[1..] == run;
    }
  }

  lemma AfterRun(a: string, b: string, r: Reading)
    ensures After([], a, After([], b, r)) == After([], a + b, r)
  {
    if r.Success? {
      assert a + (b + r.value[0]) == a + b + r.value[0];
      assert ([b + r.value[0]] + r.value[1..])[1..] == r.value[1..];
    }
  }

  predicate StartsWithStar(t: string)
  {
    t != "" && t[0] == '*'
  }

  lemma ReadStar(tail: string)
    requires ReadRuns(tail).Success? && !StartsWithStar(tail)
    ensures ReadRuns("*" + tail) == Success([""] + ReadRuns(tail).value)
  {
    assert ("*" + tail)[1..] == tail;
    AfterStarIs(ReadRuns(tail).value);
  }

  lemma AfterRunIs(run: string, runs: seq<string>)
    ensures After([], run, Success([""] + runs)) == Success([run] + runs)
  {
    assert run + "" == run;
    assert [] + [run] + ([""] + runs)[1..] == [run] + runs;
  }

  /** What is printed after a star does not begin with one. */
  lemma TailStart(parts: seq<string>)
    requires WellFormedRuns(parts) && |parts| > 1
    ensures !StartsWithStar(PrintRuns(parts[1..]))
  {
    var rest := parts[1..];
    assert |rest| > 1 ==> rest[0] == parts[1] != "";
  }

  lemma {:induction false} ReadPrintedRuns(parts: seq<string>)
    requires WellFormedRuns(parts)
    ensures ReadRuns(PrintRuns(parts)) == Success(parts)
    decreases |parts|
  {
    if |parts| == 1 {
      ReadLastRun(parts[0]);
      assert [parts[0]] == parts;
    } else {
      var rest := parts[1..];
      ReadPrintedRuns(rest);
      TailStart(parts);
      ReadRunAndStar(parts[0], PrintRuns(rest));
      assert [parts[0]] + rest == parts;
    }
  }

  lemma ReadLastRun(run: string)
    ensures ReadRuns(Escape(run)) == Success([run])
  {
    ReadEscaped(run, "");
    assert Escape(run) + "" == Escape(run);
    AfterAll([], run);
    assert [] + [run] == [run];
  }

  lemma ReadRunAndStar(run: string, tail: string)
    requires ReadRuns(tail).Success? && !StartsWithStar(tail)
    ensures ReadRuns(Escape(run) + "*" + tail) == Success([run] + ReadRuns(tail).value)
  {
    ReadStar(tail);
    ReadEscaped(run, "*" + tail);
    Associative(Escape(run), "*", tail);
    AfterRunIs(run, ReadRuns(tail).value);
  }

  lemma {:induction false} EscapeAvoids(s: string)
    requires '/' !in s
    ensures '/' !in Escape(s)
    decreases |s|
  {
    if s != "" {
      EscapeAvoids(s[1..]);
    }
  }

  lemma {:induction false} PrintRunsAvoids(parts: seq<string>)
    requires WellFormedRuns(parts)
    ensures '/' !in PrintRuns(parts)
    decreases |parts|
  {
    EscapeAvoids(parts[0]);
    if |parts| > 1 {
      PrintRunsAvoids(parts[1..]);
    }
  }

  lemma ReadPrintedSegment(seg: Segment)
    requires WellFormedSegment(seg)
    ensures ReadSegment(PrintSegment(seg)) == Success(seg)
    ensures '/' !in PrintSegment(seg)
  {
    if seg.Plain? {
      ReadPrintedRuns(seg.parts);
      PrintRunsAvoids(seg.parts);
      assert ReadRuns("**").Failure?;
    }
  }

  /** Printing and reading undo each other, so reading reaches all well-formed segments and no others. */
  lemma ParseOfPrint(segs: seq<Segment>)
    requires WellFormed(segs)
    ensures HasRuns(segs) && Parse(Print(segs)) == Success(Glob(Print(segs), segs))
  {
    assert forall i :: 0 <= i < |segs| ==> WellFormedSegment(segs[i]);
    var texts := PrintAll(segs);
    forall i | 0 <= i < |texts|
      ensures ReadSegment(texts[i]) == Success(segs[i]) && '/' !in texts[i]
    {
      ReadPrintedSegment(segs[i]);
    }
    SplitOfJoin(texts, '/');
    ReadAllIs(texts);
    assert ReadAll(texts).value == segs;
    CollapseOfCollapsed(segs);
  }

  /** Printed and read again, an accepted pattern stands for the same names. */
  lemma PrintKeepsMeaning(pattern: string, name: string)
    requires Accepted(pattern)
    ensures var segs := Parse(pattern).value.segs;
            HasRuns(segs) && (InLanguage(Print(segs), name) <==> InLanguage(pattern, name))
  {
    var segs := Parse(pattern).value.segs;
    ParsedIsWellFormed(pattern);
    ParseOfPrint(segs);
    ParsedMeansText(pattern, name);
    ParsedMeansText(Print(segs), name);
  }

  // ---------- one name ----------

  function EscapeAll(ss: seq<string>): (texts: seq<string>)
    ensures |texts| == |ss|
    ensures forall i :: 0 <= i < |ss| ==> texts[i] == Escape(ss[i])
  {
    seq(|ss|, i requires 0 <= i < |ss| => Escape(ss[i]))
  }

  lemma {:induction false} EscapeOfConcat(a: string, b: string)
    ensures Escape(a + b) == Escape(a) + Escape(b)
    decreases |a|
  {
    if a == "" {
      assert a + b == b;
    } else {
      assert (a + b)[1..] == a[1..] + b;
      EscapeOfConcat(a[1..], b);
    }
  }

  lemma {:induction false} EscapeOfJoin(ss: seq<string>)
    ensures Escape(Join(ss, '/')) == Join(EscapeAll(ss), '/')
    decreases |ss|
  {
    if |ss| > 1 {
      var rest := Join(ss[1..], '/');
      EscapeOfJoin(ss[1..]);
      EscapeOfConcat(ss[0] + "/", rest);
      EscapeOfConcat(ss[0], "/");
      assert Escape("/") == "/" by { assert Escape("/") == "/" + Escape(""); }
      assert EscapeAll(ss)[1..] == EscapeAll(ss[1..]);
    }
  }

  lemma EscapedSegment(s: string)
    requires '/' !in s
    ensures ReadSegment(Escape(s)) == Success(Plain([s])) && '/' !in Escape(s)
    ensures TextItem(Escape(s)) == One(iset{s})
  {
    ReadPrintedSegment(Plain([s]));
    SegmentMeansText(Escape(s));
    forall w: string ensures Fits([s], w) <==> w == s {
      FitsIsSteps([s], w);
    }
  }

  lemma EscapedPieces(name: string)
    ensures Split(Escape(name), '/') == EscapeAll(Split(name, '/'))
  {
    var ss := Split(name, '/');
    SplitSpec(name, '/');
    EscapeOfJoin(ss);
    forall i | 0 <= i < |ss| ensures '/' !in Escape(ss[i]) {
      EscapeAvoids(ss[i]);
    }
    SplitOfJoin(EscapeAll(ss), '/');
  }

  lemma EscapedSegments(ss: seq<string>)
    requires Free(ss, '/')
    ensures AllRead(EscapeAll(ss))
    ensures forall i :: 0 <= i < |ss| ==> TextItems(EscapeAll(ss))[i] == One(iset{ss[i]})
  {
    forall i | 0 <= i < |ss|
      ensures ReadSegment(Escape(ss[i])).Success? && TextItem(Escape(ss[i])) == One(iset{ss[i]})
    {
      EscapedSegment(ss[i]);
    }
  }

  /** A name with its stars and `\`s escaped is a pattern for that name and no other. */
  lemma EscapedNameIsItself(name: string, other: string)
    ensures Accepted(Escape(name))
    ensures InLanguage(Escape(name), other) <==> other == name
  {
    var ss := Split(name, '/');
    SplitSpec(name, '/');
    EscapedPieces(name);
    EscapedSegments(ss);
    AcceptedIs(Escape(name));
    Literal(TextItems(EscapeAll(ss)), ss, Split(other, '/'));
    InLanguageIs(Escape(name), other);
    if Split(other, '/') == ss {
      SplitInjective(other, name, '/');
    }
  }

  lemma {:induction false} NothingToEscape(s: string)
    requires '*' !in s && '\\' !in s
    ensures Escape(s) == s
    decreases |s|
  {
    if s != "" {
      NothingToEscape(s[1..]);
    }
  }

  /** Anything else is itself: without a star or a `\`, a pattern stands for its own text alone. */
  lemma PlainPatternIsItself(pattern: string, name: string)
    requires '*' !in pattern && '\\' !in pattern
    ensures Accepted(pattern)
    ensures InLanguage(pattern, name) <==> name == pattern
  {
    NothingToEscape(pattern);
    EscapedNameIsItself(pattern, name);
  }
}

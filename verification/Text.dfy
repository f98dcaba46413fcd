/**
 The functions of Go's `strings` package the rest relies on, each with an exact contract.
 A Go string is a sequence of bytes; here it is a `string` whose every `char` is one byte.
 No law needs the characters to be below 256, so each covers every byte string.
 */
module Text {

  // ---------- one byte, and a run of bytes, inside a string ----------

  /** `strings.IndexByte`: the first `c`, as `IndexByteSpec` says, or -1. */
  function IndexByte(s: string, c: char): (r: int)
    ensures -1 <= r < |s|
  {
    if s == "" then -1
    else if s[0] == c then 0
    else
      var k := IndexByte(s[1..], c);
      if k < 0 then -1 else k + 1
  }

  lemma {:induction false} IndexByteSpec(s: string, c: char)
    ensures var r := IndexByte(s, c);
            if r < 0 then c !in s else s[r] == c && c !in s[..r]
    decreases |s|
  {
    if s != "" && s[0] != c {
      IndexByteSpec(s[1..], c);
      var k := IndexByte(s[1..], c);
      assert s == [s[0]] + s[1..];
      assert k >= 0 ==> s[..k + 1] == [s[0]] + s[1..][..k];
    }
  }

  /** `strings.LastIndexByte`: the last `c`, as `LastIndexByteSpec` says, or -1. */
  function LastIndexByte(s: string, c: char): (r: int)
    ensures -1 <= r < |s|
  {
    if s == "" then -1
    else if s[|s| - 1] == c then |s| - 1
    else LastIndexByte(s[..|s| - 1], c)
  }

  lemma {:induction false} LastIndexByteIsLast(s: string, c: char)
    ensures c !in s[LastIndexByte(s, c) + 1..]
    decreases |s|
  {
    var n := |s| - 1;
    if s != "" && s[n] != c {
      var t, k := s[..n], LastIndexByte(s[..n], c);
      LastIndexByteIsLast(t, c);
      assert s[k + 1..] == t[k + 1..] + [s[n]];
    }
  }

  lemma {:induction false} LastIndexByteIsOne(s: string, c: char)
    ensures LastIndexByte(s, c) >= 0 ==> s[LastIndexByte(s, c)] == c
    decreases |s|
  {
    if s != "" {
      LastIndexByteIsOne(s[..|s| - 1], c);
    }
  }

  lemma LastIndexByteSpec(s: string, c: char)
    ensures var r := LastIndexByte(s, c);
            if r < 0 then c !in s else s[r] == c && c !in s[r + 1..]
  {
    LastIndexByteIsLast(s, c);
    LastIndexByteIsOne(s, c);
    assert s[0..] == s;
  }

  lemma {:induction false} IndexByteNotAfter(s: string, c: char, a: nat)
    requires a < |s| && s[a] == c
    ensures 0 <= IndexByte(s, c) <= a
    decreases |s|
  {
    if a > 0 && s[0] != c {
      IndexByteNotAfter(s[1..], c, a - 1);
    }
  }

  lemma {:induction false} LastIndexByteNotBefore(s: string, c: char, b: nat)
    requires b < |s| && s[b] == c
    ensures b <= LastIndexByte(s, c)
    decreases |s|
  {
    var n := |s| - 1;
    if b < n && s[n] != c {
      LastIndexByteNotBefore(s[..n], c, b);
    }
  }

  /** `p` stands in `s` at index `i`. */
  predicate At(s: string, p: string, i: int)
  {
    0 <= i && i + |p| <= |s| && s[i..i + |p|] == p
  }

  /** `strings.HasSuffix`. */
  predicate HasSuffix(s: string, p: string)
  {
    |p| <= |s| && s[|s| - |p|..] == p
  }

  /** `strings.Index`: where `p` is first found in `s`, or -1. */
  function Index(s: string, p: string): (r: int)
    ensures -1 <= r
    ensures r < 0 ==> forall j :: !At(s, p, j)
    ensures r >= 0 ==> At(s, p, r) && forall j :: 0 <= j < r ==> !At(s, p, j)
  {
    IndexFrom(s, p, 0)
  }

  function IndexFrom(s: string, p: string, from: nat): (r: int)
    ensures r == -1 || from <= r
    ensures r < 0 ==> forall j :: from <= j ==> !At(s, p, j)
    ensures r >= 0 ==> At(s, p, r) && forall j :: from <= j < r ==> !At(s, p, j)
    decreases |s| - from
  {
    if from + |p| > |s| then -1
    else if At(s, p, from) then from
    else IndexFrom(s, p, from + 1)
  }

  // ---------- splitting and joining at a separator ----------

  /** `strings.Join` with a one-byte separator. */
  function Join(pieces: seq<string>, sep: char): string
  {
    if pieces == [] then ""
    else if |pieces| == 1 then pieces[0]
    else pieces[0] + [sep] + Join(pieces[1..], sep)
  }

  /** `strings.Split` with a one-byte separator; `SplitSpec` says what its pieces are. */
  function Split(s: string, sep: char): (pieces: seq<string>)
    ensures |pieces| >= 1
    decreases |s|
  {
    var k := IndexByte(s, sep);
    if k < 0 then [s] else [s[..k]] + Split(s[k + 1..], sep)
  }

  ghost predicate Free(pieces: seq<string>, c: char)
  {
    forall i :: 0 <= i < |pieces| ==> c !in pieces[i]
  }

  lemma {:induction false} SplitIsFree(s: string, sep: char)
    ensures Free(Split(s, sep), sep)
    decreases |s|
  {
    var k := IndexByte(s, sep);
    IndexByteSpec(s, sep);
    if k >= 0 {
      SplitIsFree(s[k + 1..], sep);
    }
  }

  lemma {:induction false} JoinOfSplit(s: string, sep: char)
    ensures Join(Split(s, sep), sep) == s
    decreases |s|
  {
    var k := IndexByte(s, sep);
    IndexByteSpec(s, sep);
    if k >= 0 {
      var rest := Split(s[k + 1..], sep);
      JoinOfSplit(s[k + 1..], sep);
      assert ([s[..k]] + rest)[1..] == rest;
      assert s == s[..k] + [sep] + s[k + 1..];
    }
  }

  /** The pieces hold no separator, and joining them gives the string back. */
  lemma SplitSpec(s: string, sep: char)
    ensures Free(Split(s, sep), sep)
    ensures Join(Split(s, sep), sep) == s
  {
    SplitIsFree(s, sep);
    JoinOfSplit(s, sep);
  }

  lemma {:induction false} IndexByteOfPrefix(a: string, c: char, b: string)
    requires c !in a
    ensures IndexByte(a + [c] + b, c) == |a|
    decreases |a|
  {
    if a != "" {
      assert (a + [c] + b)[1..] == a[1..] + [c] + b;
      IndexByteOfPrefix(a[1..], c, b);
    }
  }

  /** The pieces of a split are the only separator-free pieces that join to the string. */
  lemma {:induction false} SplitOfJoin(pieces: seq<string>, sep: char)
    requires pieces != []
    requires Free(pieces, sep)
    ensures Split(Join(pieces, sep), sep) == pieces
    decreases |pieces|
  {
    var s := Join(pieces, sep);
    if |pieces| > 1 {
      var rest := Join(pieces[1..], sep);
      IndexByteOfPrefix(pieces[0], sep, rest);
      assert s == pieces[0] + [sep] + rest;
      assert s[..|pieces[0]|] == pieces[0] && s[|pieces[0]| + 1..] == rest;
      SplitOfJoin(pieces[1..], sep);
      assert pieces == [pieces[0]] + pieces[1..];
    } else {
      SplitWithout(s, sep);
    }
  }

  lemma JoinFirst(piece: string, rest: seq<string>, sep: char)
    requires rest != []
    ensures Join([piece] + rest, sep) == piece + ([sep] + Join(rest, sep))
  {
    assert ([piece] + rest)[1..] == rest;
    assert piece + [sep] + Join(rest, sep) == piece + ([sep] + Join(rest, sep));
  }

  lemma {:induction false} JoinOfConcat(xs: seq<string>, ys: seq<string>, sep: char)
    requires xs != [] && ys != []
    ensures Join(xs + ys, sep) == Join(xs, sep) + [sep] + Join(ys, sep)
    decreases |xs|
  {
    if |xs| == 1 {
      assert (xs + ys)[1..] == ys;
    } else {
      assert (xs + ys)[1..] == xs[1..] + ys;
      JoinOfConcat(xs[1..], ys, sep);
    }
  }

  lemma SplitOfConcat(a: string, sep: char, b: string)
    ensures Split(a + [sep] + b, sep) == Split(a, sep) + Split(b, sep)
  {
    var xs, ys := Split(a, sep), Split(b, sep);
    SplitSpec(a, sep);
    SplitSpec(b, sep);
    JoinOfConcat(xs, ys, sep);
    SplitOfJoin(xs + ys, sep);
  }

  lemma SplitInjective(a: string, b: string, sep: char)
    requires Split(a, sep) == Split(b, sep)
    ensures a == b
  {
    SplitSpec(a, sep);
    SplitSpec(b, sep);
  }

  lemma SplitWithout(a: string, sep: char)
    requires sep !in a
    ensures Split(a, sep) == [a]
  {
    IndexByteSpec(a, sep);
  }

  /** What no piece holds, their join holds only as the separator. */
  lemma {:induction false} JoinAvoids(pieces: seq<string>, sep: char, c: char)
    requires c != sep
    requires Free(pieces, c)
    ensures c !in Join(pieces, sep)
    decreases |pieces|
  {
    if |pieces| > 1 {
      JoinAvoids(pieces[1..], sep, c);
    }
  }

  // ---------- white space ----------

  // The UTF-8 encodings, of one, two and three bytes, of the characters for which
  // `unicode.IsSpace` holds. No byte of an encoding but the first can begin a character, so
  // an encoding is found the same way whatever bytes stand around it.

  predicate Space1(a: char)
  {
    9 <= a as int <= 13 || a == ' '
  }

  predicate Space2(a: char, b: char)
  {
    a as int == 0xC2 && (b as int == 0x85 || b as int == 0xA0)
  }

  predicate Space3(a: char, b: char, c: char)
  {
    || (a as int == 0xE1 && b as int == 0x9A && c as int == 0x80)
    || (a as int == 0xE2 && b as int == 0x80 && 0x80 <= c as int <= 0x8A)
    || (a as int == 0xE2 && b as int == 0x80 && (c as int == 0xA8 || c as int == 0xA9 || c as int == 0xAF))
    || (a as int == 0xE2 && b as int == 0x81 && c as int == 0x9F)
    || (a as int == 0xE3 && b as int == 0x80 && c as int == 0x80)
  }

  /** The length of the white space character `s` begins with, 0 when it begins with none. */
  function SpaceLen(s: string): (n: nat)
    ensures n <= |s|
  {
    if |s| >= 1 && Space1(s[0]) then 1
    else if |s| >= 2 && Space2(s[0], s[1]) then 2
    else if |s| >= 3 && Space3(s[0], s[1], s[2]) then 3
    else 0
  }

  /** The characters for which `unicode.IsSpace` holds, by their code points. */
  predicate WhiteSpace(cp: nat)
  {
    || 0x09 <= cp <= 0x0D || cp == 0x20 || cp == 0x85 || cp == 0xA0 || cp == 0x1680
    || 0x2000 <= cp <= 0x200A || cp == 0x2028 || cp == 0x2029 || cp == 0x202F || cp == 0x205F || cp == 0x3000
  }

  /** The UTF-8 encoding of a character of up to sixteen bits; see section 3 of RFC 3629. */
  function Utf8(cp: nat): string
    requires cp < 0x10000
  {
    if cp < 0x80 then [cp as char]
    else if cp < 0x800 then [(0xC0 + cp / 64) as char, (0x80 + cp % 64) as char]
    else [(0xE0 + cp / 4096) as char, (0x80 + cp / 64 % 64) as char, (0x80 + cp % 64) as char]
  }

  lemma Utf8IsSpace(cp: nat)
    requires WhiteSpace(cp)
    ensures SpaceLen(Utf8(cp)) == |Utf8(cp)| > 0
  {
  }

  lemma SpaceIsUtf8(s: string) returns (cp: nat)
    requires SpaceLen(s) > 0
    ensures WhiteSpace(cp) && Utf8(cp) == s[..SpaceLen(s)]
  {
    var a := s[0] as int;
    if SpaceLen(s) == 1 {
      cp := a;
    } else if SpaceLen(s) == 2 {
      cp := (a - 0xC0) * 64 + (s[1] as int - 0x80);
    } else {
      cp := (a - 0xE0) * 4096 + (s[1] as int - 0x80) * 64 + (s[2] as int - 0x80);
    }
  }

  /** A text begins with white space exactly when it begins with the encoding of a white space character. */
  lemma SpaceLenExactly(s: string, n: nat)
    ensures SpaceLen(s) == n > 0 <==> exists cp :: WhiteSpace(cp) && |Utf8(cp)| == n && Utf8(cp) <= s
  {
    if SpaceLen(s) == n > 0 {
      var cp := SpaceIsUtf8(s);
    }
    if cp: nat :| WhiteSpace(cp) && |Utf8(cp)| == n && Utf8(cp) <= s {
      Utf8IsSpace(cp);
      SpaceLenOfPrefix(Utf8(cp), s[n..]);
      assert Utf8(cp) + s[n..] == s;
    }
  }

  lemma SpaceLenAt(s: string)
    ensures SpaceLen(s[|s|..]) == 0
    ensures |s| >= 1 && Space1(s[|s| - 1]) ==> SpaceLen(s[|s| - 1..]) == 1
    ensures |s| >= 2 && Space2(s[|s| - 2], s[|s| - 1]) ==> SpaceLen(s[|s| - 2..]) == 2
    ensures |s| >= 3 && Space3(s[|s| - 3], s[|s| - 2], s[|s| - 1]) ==> SpaceLen(s[|s| - 3..]) == 3
  {
    if |s| >= 3 {
      var t := s[|s| - 3..];
      assert t[0] == s[|s| - 3] && t[1] == s[|s| - 2] && t[2] == s[|s| - 1];
    }
    if |s| >= 2 {
      var t := s[|s| - 2..];
      assert t[0] == s[|s| - 2] && t[1] == s[|s| - 1];
    }
  }

  /** The length of the white space character `s` ends with, 0 when it ends with none. */
  function SpaceTail(s: string): (n: nat)
    ensures n <= |s|
  {
    var m := |s|;
    if m >= 1 && Space1(s[m - 1]) then 1
    else if m >= 2 && Space2(s[m - 2], s[m - 1]) then 2
    else if m >= 3 && Space3(s[m - 3], s[m - 2], s[m - 1]) then 3
    else 0
  }

  lemma SpaceTailIs(s: string)
    ensures SpaceLen(s[|s| - SpaceTail(s)..]) == SpaceTail(s)
  {
    SpaceLenAt(s);
  }

  /** Nothing but white space characters. */
  predicate Blank(s: string)
    decreases |s|
  {
    s == "" || (SpaceLen(s) > 0 && Blank(s[SpaceLen(s)..]))
  }

  lemma SpaceLenOfPrefix(a: string, b: string)
    ensures SpaceLen(a) > 0 ==> SpaceLen(a + b) == SpaceLen(a)
  {
  }

  lemma {:induction false} BlankAppend(a: string, r: string)
    requires Blank(a) && SpaceLen(r) == |r|
    ensures Blank(a + r)
    decreases |a|
  {
    if a == "" {
      assert a + r == r;
    } else {
      var n := SpaceLen(a);
      SpaceLenOfPrefix(a, r);
      assert (a + r)[n..] == a[n..] + r;
      BlankAppend(a[n..], r);
    }
  }

  lemma BlankPrepend(r: string, a: string)
    requires Blank(a) && SpaceLen(r) == |r|
    ensures Blank(r + a)
  {
    if r == "" {
      assert r + a == a;
    } else {
      SpaceLenOfPrefix(r, a);
      assert (r + a)[|r|..] == a;
    }
  }

  predicate Trimmed(s: string)
  {
    SpaceLen(s) == 0 && SpaceTail(s) == 0
  }

  /** `strings.TrimSpace`; `TrimSpec` says what is left. */
  function TrimSpace(s: string): string
    decreases |s|
  {
    if Trimmed(s) then s
    else if SpaceLen(s) > 0 then TrimSpace(s[SpaceLen(s)..])
    else TrimSpace(s[..|s| - SpaceTail(s)])
  }

  /** `r` stands in `s` at index `i`, and nothing but white space stands around it. */
  ghost predicate Within(s: string, r: string, i: nat)
  {
    At(s, r, i) && Blank(s[..i]) && Blank(s[i + |r|..])
  }

  lemma SpaceLenAlone(s: string)
    ensures SpaceLen(s[..SpaceLen(s)]) == SpaceLen(s)
  {
  }

  lemma AtRightOf(r0: string, t: string, r: string, i: nat)
    requires At(t, r, i)
    ensures var s, n := r0 + t, |r0|;
            At(s, r, n + i) && s[..n + i] == r0 + t[..i] && s[n + i + |r|..] == t[i + |r|..]
  {
    var s, n := r0 + t, |r0|;
    assert s[n + i..n + i + |r|] == t[i..i + |r|];
  }

  lemma AtLeftOf(t: string, r0: string, r: string, i: nat)
    requires At(t, r, i)
    ensures var s := t + r0;
            At(s, r, i) && s[..i] == t[..i] && s[i + |r|..] == t[i + |r|..] + r0
  {
    assert (t + r0)[i..i + |r|] == t[i..i + |r|];
  }

  lemma SpaceThenWithin(r0: string, t: string, r: string, i: nat)
    requires SpaceLen(r0) == |r0| && Within(t, r, i)
    ensures Within(r0 + t, r, |r0| + i)
  {
    BlankPrepend(r0, t[..i]);
    AtRightOf(r0, t, r, i);
  }

  lemma WithinThenSpace(t: string, r0: string, r: string, i: nat)
    requires SpaceLen(r0) == |r0| && Within(t, r, i)
    ensures Within(t + r0, r, i)
  {
    BlankAppend(t[i + |r|..], r0);
    AtLeftOf(t, r0, r, i);
  }

  lemma WithinRightOf(s: string, n: nat, r: string, i: nat)
    requires n <= |s| && SpaceLen(s[..n]) == n && Within(s[n..], r, i)
    ensures Within(s, r, n + i)
  {
    SpaceThenWithin(s[..n], s[n..], r, i);
    assert s[..n] + s[n..] == s;
  }

  lemma WithinLeftOf(s: string, n: nat, r: string, i: nat)
    requires n <= |s| && SpaceLen(s[n..]) == |s| - n && Within(s[..n], r, i)
    ensures Within(s, r, i)
  {
    WithinThenSpace(s[..n], s[n..], r, i);
    assert s[..n] + s[n..] == s;
  }

  lemma {:induction false} TrimIsTrimmed(s: string)
    ensures Trimmed(TrimSpace(s))
    decreases |s|
  {
    if SpaceLen(s) > 0 {
      TrimIsTrimmed(s[SpaceLen(s)..]);
    } else if SpaceTail(s) > 0 {
      TrimIsTrimmed(s[..|s| - SpaceTail(s)]);
    }
  }

  lemma {:induction false} TrimIsWithin(s: string) returns (i: nat)
    ensures Within(s, TrimSpace(s), i)
    decreases |s|
  {
    if SpaceLen(s) > 0 {
      var n := SpaceLen(s);
      SpaceLenAlone(s);
      var j := TrimIsWithin(s[n..]);
      WithinRightOf(s, n, TrimSpace(s[n..]), j);
      i := n + j;
    } else if SpaceTail(s) > 0 {
      var n := SpaceTail(s);
      SpaceTailIs(s);
      i := TrimIsWithin(s[..|s| - n]);
      WithinLeftOf(s, |s| - n, TrimSpace(s[..|s| - n]), i);
    } else {
      i := 0;
      assert s[0..|s|] == s && s[..0] == "" && s[|s|..] == "";
    }
  }

  /** All of `r` is one white space character. */
  predicate IsSpace(r: string)
  {
    SpaceLen(r) == |r| > 0
  }

  /** Neither some first bytes of `s` nor some last bytes are a white space character. */
  ghost predicate NoSpaceAtEnds(s: string)
  {
    forall k :: 0 <= k <= |s| ==> !IsSpace(s[..k]) && !IsSpace(s[k..])
  }

  lemma SpaceTailOfAppend(p: string, r: string)
    requires IsSpace(r)
    ensures SpaceTail(p + r) == |r|
  {
    var s := p + r;
    assert s[|s| - 1] == r[|r| - 1];
    assert |r| >= 2 ==> s[|s| - 2] == r[|r| - 2];
    assert |r| >= 3 ==> s[|s| - 3] == r[|r| - 3];
  }

  /** `Trimmed` looks at the right bytes: no white space character is at either end. */
  lemma TrimmedExactly(s: string)
    ensures Trimmed(s) <==> NoSpaceAtEnds(s)
  {
    if Trimmed(s) {
      forall k | 0 <= k <= |s| ensures !IsSpace(s[..k]) && !IsSpace(s[k..]) {
        assert s[..k] + s[k..] == s;
        SpaceLenOfPrefix(s[..k], s[k..]);
        if IsSpace(s[k..]) {
          SpaceTailOfAppend(s[..k], s[k..]);
        }
      }
    } else if SpaceLen(s) > 0 {
      SpaceLenAlone(s);
      assert IsSpace(s[..SpaceLen(s)]);
    } else {
      SpaceTailIs(s);
      assert IsSpace(s[|s| - SpaceTail(s)..]);
    }
  }

  /**
   What is left is a stretch of `s` with nothing but white space on either side of it, and
   it neither begins nor ends with white space.
   */
  lemma TrimSpec(s: string) returns (i: nat)
    ensures Within(s, TrimSpace(s), i)
    ensures NoSpaceAtEnds(TrimSpace(s))
  {
    TrimIsTrimmed(s);
    TrimmedExactly(TrimSpace(s));
    i := TrimIsWithin(s);
  }

  lemma TrimmedIsFixed(s: string)
    ensures Trimmed(s) ==> TrimSpace(s) == s
  {
  }

  /** White space in front is ignored. */
  lemma TrimIgnoresFront(r: string, s: string)
    requires IsSpace(r)
    ensures TrimSpace(r + s) == TrimSpace(s)
  {
    SpaceLenOfPrefix(r, s);
    assert (r + s)[|r|..] == s;
  }

  /** And so is white space at the end. */
  lemma {:induction false} TrimIgnoresEnd(s: string, r: string)
    requires IsSpace(r)
    ensures TrimSpace(s + r) == TrimSpace(s)
    decreases |s|
  {
    if s == "" {
      assert s + r == r + "";
      TrimIgnoresFront(r, "");
    } else if SpaceLen(s) > 0 {
      var n := SpaceLen(s);
      SpaceLenOfPrefix(s, r);
      assert (s + r)[n..] == s[n..] + r;
      TrimIgnoresEnd(s[n..], r);
    } else {
      SpaceLenAcross(s, r);
      SpaceTailOfAppend(s, r);
      assert (s + r)[..|s + r| - |r|] == s;
    }
  }

  ghost predicate IgnoresAt(g: string -> string, r: string, s: string)
  {
    IsSpace(r) ==> g(r + s) == g(s) && g(s + r) == g(s)
  }

  ghost predicate KeepsTrimmedAt(g: string -> string, s: string)
  {
    NoSpaceAtEnds(s) ==> g(s) == s
  }

  /** White space at the ends is ignored and a text without is kept. */
  ghost predicate Trims(g: string -> string)
  {
    && (forall r, s :: IgnoresAt(g, r, s))
    && forall s :: KeepsTrimmedAt(g, s)
  }

  /** That leaves nothing open: whatever trims gives what `TrimSpace` gives. */
  lemma {:induction false} TrimIsDetermined(g: string -> string, s: string)
    requires Trims(g)
    ensures g(s) == TrimSpace(s)
    decreases |s|
  {
    TrimmedExactly(s);
    if SpaceLen(s) > 0 {
      var r, t := s[..SpaceLen(s)], s[SpaceLen(s)..];
      SpaceLenAlone(s);
      assert IgnoresAt(g, r, t) && r + t == s;
      TrimIsDetermined(g, t);
    } else if SpaceTail(s) > 0 {
      var n := |s| - SpaceTail(s);
      var t, r := s[..n], s[n..];
      SpaceTailIs(s);
      assert IgnoresAt(g, r, t) && t + r == s;
      TrimIsDetermined(g, t);
    } else {
      assert KeepsTrimmedAt(g, s);
    }
  }

  lemma TrimAvoids(s: string, c: char)
    requires c !in s
    ensures c !in TrimSpace(s)
  {
    var i := TrimSpec(s);
    StretchAvoids(s, i, i + |TrimSpace(s)|, c);
  }

  lemma StretchAvoids(s: string, lo: nat, hi: nat, c: char)
    requires lo <= hi <= |s| && c !in s
    ensures c !in s[lo..hi]
  {
  }

  /** No white space character anywhere. */
  predicate Solid(s: string)
  {
    forall i :: 0 <= i <= |s| ==> SpaceLen(s[i..]) == 0
  }

  /** A byte that can begin a character: one that is no continuation byte of UTF-8. */
  predicate Leads(c: char)
  {
    !(0x80 <= c as int < 0xC0)
  }

  /** How far the first white space character of `s` is. */
  function WordLen(s: string): (n: nat)
    ensures n <= |s|
    ensures n == 0 <==> s == "" || SpaceLen(s) > 0
  {
    if s == "" || SpaceLen(s) > 0 then 0 else WordLen(s[1..]) + 1
  }

  lemma {:induction false} WordLenSpec(s: string)
    ensures forall i :: 0 <= i < WordLen(s) ==> SpaceLen(s[i..]) == 0
    ensures WordLen(s) < |s| ==> SpaceLen(s[WordLen(s)..]) > 0
    decreases |s|
  {
    if WordLen(s) > 0 {
      WordLenSpec(s[1..]);
      assert forall i :: 0 < i <= |s| ==> s[i..] == s[1..][i - 1..];
      assert s[0..] == s;
    }
  }

  /** How far one white space character, or the field up to the next, reaches. */
  function Chunk(s: string): (n: nat)
    requires s != ""
    ensures 0 < n <= |s|
  {
    if SpaceLen(s) > 0 then SpaceLen(s) else WordLen(s)
  }

  /** The field that the text begins with, if it begins with one. */
  function FirstField(s: string): seq<string>
    requires s != ""
  {
    if SpaceLen(s) > 0 then [] else [s[..Chunk(s)]]
  }

  /** `strings.Fields`: the stretches between white space, in order. */
  function Fields(s: string): seq<string>
    decreases |s|
  {
    if s == "" then []
    else FirstField(s) + Fields(s[Chunk(s)..])
  }

  lemma {:induction false} FieldsAreSolid(s: string)
    ensures forall f :: f in Fields(s) ==> f != "" && Solid(f)
    decreases |s|
  {
    if s != "" {
      FieldsAreSolid(s[Chunk(s)..]);
      if SpaceLen(s) == 0 {
        WordLenSpec(s);
        SolidPrefix(s, WordLen(s));
      }
    }
  }

  lemma SolidPrefix(s: string, n: nat)
    requires n <= |s| && forall i :: 0 <= i < n ==> SpaceLen(s[i..]) == 0
    ensures Solid(s[..n])
  {
    var w := s[..n];
    forall i | 0 <= i <= |w| ensures SpaceLen(w[i..]) == 0 {
      SpaceLenOfPrefix(w[i..], s[n..]);
      assert w[i..] + s[n..] == s[i..];
    }
  }

  lemma SolidStretch(s: string, lo: nat, hi: nat)
    requires lo <= hi <= |s| && Solid(s)
    ensures Solid(s[lo..hi])
  {
    var t := s[lo..];
    forall i | 0 <= i < hi - lo ensures SpaceLen(t[i..]) == 0 {
      assert t[i..] == s[lo + i..];
    }
    SolidPrefix(t, hi - lo);
    assert t[..hi - lo] == s[lo..hi];
  }

  /** A white space character that is not in `a` does not come about by what follows `a`. */
  lemma SpaceLenAcross(a: string, t: string)
    requires SpaceLen(a) == 0 && a != "" && t != "" && Leads(t[0])
    ensures SpaceLen(a + t) == 0
  {
    assert (a + t)[..|a|] == a && (a + t)[|a|] == t[0];
  }

  lemma SolidAcross(a: string, c: char, b: string)
    requires Solid(a) && Solid(b) && c as int < 0x80 && !Space1(c)
    ensures Solid(a + [c] + b)
  {
    var s := a + [c] + b;
    forall i | 0 <= i <= |s| ensures SpaceLen(s[i..]) == 0 {
      if i < |a| {
        assert s[i..] == a[i..] + ([c] + b);
        SpaceLenAcross(a[i..], [c] + b);
      } else if i == |a| {
        assert s[i..][0] == c;
      } else {
        assert s[i..] == b[i - |a| - 1..];
      }
    }
  }

  lemma {:induction false} JoinSolid(pieces: seq<string>, sep: char)
    requires sep as int < 0x80 && !Space1(sep)
    requires forall i | 0 <= i < |pieces| :: Solid(pieces[i])
    ensures Solid(Join(pieces, sep))
    decreases |pieces|
  {
    if |pieces| > 1 {
      JoinSolid(pieces[1..], sep);
      SolidAcross(pieces[0], sep, Join(pieces[1..], sep));
    }
  }

  lemma {:induction false} WordLenAcross(a: string, t: string)
    requires SpaceLen(t) > 0
    ensures WordLen(a + t) == WordLen(a)
    decreases |a|
  {
    if a == "" {
      assert a + t == t;
    } else if SpaceLen(a) > 0 {
      SpaceLenOfPrefix(a, t);
    } else {
      SpaceLenAcross(a, t);
      assert (a + t)[1..] == a[1..] + t;
      WordLenAcross(a[1..], t);
    }
  }

  lemma ChunkAcross(a: string, t: string)
    requires a != "" && SpaceLen(t) > 0
    ensures Chunk(a + t) == Chunk(a) && FirstField(a + t) == FirstField(a)
  {
    WordLenAcross(a, t);
    SpaceLenOfPrefix(a, t);
    if SpaceLen(a) == 0 {
      SpaceLenAcross(a, t);
    }
    assert (a + t)[..Chunk(a)] == a[..Chunk(a)];
  }

  lemma {:induction false} FieldsBeforeSpace(a: string, t: string)
    requires SpaceLen(t) > 0
    ensures Fields(a + t) == Fields(a) + Fields(t)
    decreases |a|
  {
    if a == "" {
      assert a + t == t;
    } else {
      var n := Chunk(a);
      ChunkAcross(a, t);
      assert (a + t)[n..] == a[n..] + t;
      FieldsBeforeSpace(a[n..], t);
    }
  }

  lemma FieldsAfterSpace(r: string, b: string)
    requires SpaceLen(r) == |r| > 0
    ensures SpaceLen(r + b) > 0 && Fields(r + b) == Fields(b)
  {
    SpaceLenOfPrefix(r, b);
    assert (r + b)[|r|..] == b;
  }

  /** Any white space character between two texts separates their fields and adds none. */
  lemma FieldsOfConcat(a: string, r: string, b: string)
    requires SpaceLen(r) == |r| > 0
    ensures Fields(a + (r + b)) == Fields(a) + Fields(b)
  {
    FieldsAfterSpace(r, b);
    FieldsBeforeSpace(a, r + b);
  }

  /** A text without white space is its own one field, unless it is empty and has none. */
  lemma FieldsOfSolid(s: string)
    requires Solid(s)
    ensures Fields(s) == if s == "" then [] else [s]
  {
    assert s[0..] == s;
    WordLenSpec(s);
    assert SpaceLen(s[WordLen(s)..]) == 0;
    assert s[..|s|] == s;
  }

  ghost predicate SeparatesAt(g: string -> seq<string>, a: string, r: string, b: string)
  {
    SpaceLen(r) == |r| > 0 ==> g(a + (r + b)) == g(a) + g(b)
  }

  ghost predicate KeepsSolidAt(g: string -> seq<string>, s: string)
  {
    Solid(s) ==> g(s) == if s == "" then [] else [s]
  }

  /** What `FieldsOfConcat` and `FieldsOfSolid` say of `Fields`, said of `g`. */
  ghost predicate ObeysBoth(g: string -> seq<string>)
  {
    && (forall a, r, b :: SeparatesAt(g, a, r, b))
    && forall s :: KeepsSolidAt(g, s)
  }

  /** A text with white space is a solid one, a white space character, and the rest. */
  lemma FirstSpace(s: string) returns (a: string, r: string, b: string)
    requires WordLen(s) < |s|
    ensures s == a + (r + b) && Solid(a) && SpaceLen(r) == |r| > 0
  {
    var n := WordLen(s);
    WordLenSpec(s);
    SolidPrefix(s, n);
    var t := s[n..];
    SpaceLenAlone(t);
    a, r, b := s[..n], t[..SpaceLen(t)], t[SpaceLen(t)..];
    assert r + b == t && a + t == s;
  }

  /** Those two laws leave nothing open: whatever obeys both gives the fields of every text. */
  lemma {:induction false} FieldsAreDetermined(g: string -> seq<string>, s: string)
    requires ObeysBoth(g)
    ensures g(s) == Fields(s)
    decreases |s|
  {
    if WordLen(s) == |s| {
      WordLenSpec(s);
      SolidPrefix(s, |s|);
      assert s[..|s|] == s;
      assert KeepsSolidAt(g, s);
      FieldsOfSolid(s);
    } else {
      var a, r, b := FirstSpace(s);
      assert SeparatesAt(g, a, r, b) && KeepsSolidAt(g, a);
      FieldsOfSolid(a);
      FieldsOfConcat(a, r, b);
      FieldsAreDetermined(g, b);
    }
  }
}

/** The JavaScript string primitives the bot relies on: `trim`, `split` with
    a one-character separator, `Array.prototype.join`, `includes` and the
    upper-casing used by the country filter. Strings are sequences of
    characters; lengths count characters. */
module Text {
  import opened Seqs

  /** The ECMAScript WhiteSpace and LineTerminator code points, which is the
      set `String.prototype.trim` removes from both ends. */
  predicate IsWhitespace(c: char) {
    || c == ' ' || c == '\t' || c == '\n' || c == '\U{000B}' || c == '\U{000C}' || c == '\r'
    || c == '\U{00A0}' || c == '\U{1680}' || ('\U{2000}' <= c <= '\U{200A}')
    || c == '\U{2028}' || c == '\U{2029}' || c == '\U{202F}' || c == '\U{205F}'
    || c == '\U{3000}' || c == '\U{FEFF}'
  }

  predicate IsVisible(c: char) {
    !IsWhitespace(c)
  }

  ghost predicate AllWhitespace(s: string) {
    forall i :: 0 <= i < |s| ==> IsWhitespace(s[i])
  }

  /** `s` has no whitespace at either end (the empty string qualifies). */
  ghost predicate IsTrimmed(s: string) {
    s == [] || (IsVisible(s[0]) && IsVisible(s[|s| - 1]))
  }

  /** The suffix of `s` left after its longest whitespace prefix. */
  function TrimStart(s: string): (r: string)
    ensures |r| <= |s|
    ensures r == s[|s| - |r|..]
    ensures AllWhitespace(s[..|s| - |r|])
    ensures r == [] || IsVisible(r[0])
  {
    if |s| > 0 && IsWhitespace(s[0]) then
      var r := TrimStart(s[1..]);
      DropFirst(s, r);
      r
    else s
  }

  lemma DropFirst(s: string, r: string)
    requires |s| > 0 && IsWhitespace(s[0]) && |r| <= |s| - 1
    requires r == s[1..][|s| - 1 - |r|..] && AllWhitespace(s[1..][..|s| - 1 - |r|])
    ensures r == s[|s| - |r|..] && AllWhitespace(s[..|s| - |r|])
  {
    var k := |s| - |r|;
    forall i | 0 <= i < k ensures IsWhitespace(s[..k][i]) {
      if i > 0 {
        assert s[..k][i] == s[1..][..k - 1][i - 1];
      }
    }
  }

  /** The prefix of `s` left after its longest whitespace suffix. */
  function TrimEnd(s: string): (r: string)
    ensures |r| <= |s|
    ensures r == s[..|r|]
    ensures AllWhitespace(s[|r|..])
    ensures r == [] || IsVisible(r[|r| - 1])
  {
    if |s| > 0 && IsWhitespace(s[|s| - 1]) then
      var r := TrimEnd(s[..|s| - 1]);
      DropLast(s, r);
      r
    else s
  }

  lemma DropLast(s: string, r: string)
    requires |s| > 0 && IsWhitespace(s[|s| - 1]) && |r| <= |s| - 1
    requires r == s[..|s| - 1][..|r|] && AllWhitespace(s[..|s| - 1][|r|..])
    ensures r == s[..|r|] && AllWhitespace(s[|r|..])
  {
    forall j | 0 <= j < |s| - |r| ensures IsWhitespace(s[|r|..][j]) {
      if |r| + j < |s| - 1 {
        assert s[|r|..][j] == s[..|s| - 1][|r|..][j];
      }
    }
  }

  /** `String.prototype.trim`. */
  function Trim(s: string): (r: string)
    ensures |r| <= |s|
    ensures IsTrimmed(r)
    ensures r == [] <==> AllWhitespace(s)
  {
    TrimEmpty(s);
    TrimEnds(s);
    TrimEnd(TrimStart(s))
  }

  lemma TrimEnds(s: string)
    ensures |TrimEnd(TrimStart(s))| <= |s|
    ensures IsTrimmed(TrimEnd(TrimStart(s)))
  {
    var t := TrimStart(s);
    var r := TrimEnd(t);
    if r != [] {
      assert r[0] == t[0];
    }
  }

  lemma TrimEmpty(s: string)
    ensures TrimEnd(TrimStart(s)) == [] <==> AllWhitespace(s)
  {
    var t := TrimStart(s);
    var k := |s| - |t|;
    if t == [] {
      assert TrimEnd(t) == [];
      assert s[..k] == s;
    } else {
      assert s[k] == t[0];
      assert !IsWhitespace(s[k]);
      TrimEndKeepsVisible(t);
    }
  }

  /** A string that starts with a visible character keeps it under `TrimEnd`. */
  lemma {:induction false} TrimEndKeepsVisible(t: string)
    requires t != [] && IsVisible(t[0])
    ensures TrimEnd(t) != []
    decreases |t|
  {
    if |t| > 1 && IsWhitespace(t[|t| - 1]) {
      var u := t[..|t| - 1];
      assert u[0] == t[0];
      TrimEndKeepsVisible(u);
    }
  }

  /** `s` with every whitespace character deleted: the part of a text that
      the chunker must preserve. */
  function Visible(s: string): (r: string)
    ensures |r| <= |s|
  {
    Filter(s, IsVisible)
  }

  /** The concatenation of a sequence of strings, in order. */
  function Concat(parts: seq<string>): string {
    if parts == [] then [] else parts[0] + Concat(parts[1..])
  }

  /** `Array.prototype.join(sep)`. */
  function Join(parts: seq<string>, sep: char): string {
    if parts == [] then []
    else if |parts| == 1 then parts[0]
    else parts[0] + [sep] + Join(parts[1..], sep)
  }

  /** `String.prototype.split(sep)` for a one-character separator: the
      maximal separator-free pieces, empty pieces included. */
  function Split(s: string, sep: char): (parts: seq<string>)
    ensures |parts| >= 1
    ensures forall i :: 0 <= i < |parts| ==> sep !in parts[i]
  {
    if s == [] then [[]]
    else
      var rest := Split(s[1..], sep);
      if s[0] == sep then [[]] + rest
      else [[s[0]] + rest[0]] + rest[1..]
  }

  /** `String.prototype.includes(sub)`. */
  predicate Contains(s: string, sub: string)
    decreases |s|
  {
    sub <= s || (|s| > 0 && Contains(s[1..], sub))
  }

  /** `t` occurs contiguously inside `s`. */
  ghost predicate IsInfix(t: string, s: string) {
    exists i :: OccursAt(t, s, i)
  }

  /** `t` occurs inside `s` starting at position `i`. */
  ghost predicate OccursAt(t: string, s: string, i: int) {
    0 <= i <= |s| - |t| && s[i..i + |t|] == t
  }

  /** Upper-casing of one character, restricted to the mappings that can
      produce an ASCII letter: `a`-`z`, dotless i and long s. */
  function UpperChar(c: char): (u: char)
    ensures 'a' <= c <= 'z' ==> u as int == c as int - 32
    ensures ('A' <= u <= 'Z') ==> ('A' <= c <= 'Z' || 'a' <= c <= 'z' || c == '\U{0131}' || c == '\U{017F}')
  {
    if 'a' <= c <= 'z' then (c as int - 32) as char
    else if c == '\U{0131}' then 'I'
    else if c == '\U{017F}' then 'S'
    else c
  }

  /** `String.prototype.toUpperCase`, as far as it matters for comparing
      with an upper-case ASCII word. */
  function ToUpper(s: string): (r: string)
    ensures |r| == |s|
    ensures forall i :: 0 <= i < |s| ==> r[i] == UpperChar(s[i])
  {
    if s == [] then [] else [UpperChar(s[0])] + ToUpper(s[1..])
  }

  // ---------------------------------------------------------------------
  // Trim

  /** A string without whitespace at its ends is its own trim. */
  lemma TrimOfTrimmed(s: string)
    requires IsTrimmed(s)
    ensures Trim(s) == s
  {
    assert TrimStart(s) == s;
    assert TrimEnd(s) == s;
  }

  /** Appending to a string that has a visible character does not change
      where its leading whitespace ends. */
  lemma {:induction false} TrimStartAppend(s: string, t: string)
    requires !AllWhitespace(s)
    ensures TrimStart(s + t) == TrimStart(s) + t
  {
    if IsWhitespace(s[0]) {
      assert (s + t)[1..] == s[1..] + t;
      TrimStartAppend(s[1..], t);
    }
  }

  /** Whitespace appended at the end disappears under trim. */
  lemma TrimAppendWhitespace(s: string, c: char)
    requires IsWhitespace(c)
    ensures Trim(s + [c]) == Trim(s)
  {
    if AllWhitespace(s) {
      assert AllWhitespace(s + [c]) by {
        forall i | 0 <= i < |s + [c]| ensures IsWhitespace((s + [c])[i]) {
          if i < |s| { assert (s + [c])[i] == s[i]; }
        }
      }
    } else {
      TrimStartAppend(s, [c]);
      TrimEndAppendWhitespace(TrimStart(s), c);
    }
  }

  lemma TrimEndAppendWhitespace(t: string, c: char)
    requires IsWhitespace(c)
    ensures TrimEnd(t + [c]) == TrimEnd(t)
  {
    var u := t + [c];
    assert u[|u| - 1] == c;
    assert u[..|u| - 1] == t;
  }

  /** The trim of `s` is `s` with whitespace removed from both ends, so it
      keeps every visible character. */
  lemma TrimDecomposition(s: string) returns (a: string, b: string)
    ensures s == a + Trim(s) + b
    ensures AllWhitespace(a) && AllWhitespace(b)
  {
    var t := TrimStart(s);
    a := LeadingWhitespace(s);
    b := TrailingWhitespace(t);
    assert Trim(s) == TrimEnd(t);
    Regroup(s, a, t, TrimEnd(t), b);
  }

  lemma Regroup(s: string, a: string, t: string, m: string, b: string)
    requires s == a + t && t == m + b
    ensures s == a + m + b
  {
  }

  lemma LeadingWhitespace(s: string) returns (a: string)
    ensures s == a + TrimStart(s)
    ensures AllWhitespace(a)
  {
    var t := TrimStart(s);
    var k := |s| - |t|;
    a := s[..k];
    SplitAt(s, k);
  }

  lemma SplitAt(s: string, k: nat)
    requires k <= |s|
    ensures s == s[..k] + s[k..]
  {
  }

  lemma TrailingWhitespace(t: string) returns (b: string)
    ensures t == TrimEnd(t) + b
    ensures AllWhitespace(b)
  {
    var r := TrimEnd(t);
    b := t[|r|..];
    SplitAt(t, |r|);
  }

  // ---------------------------------------------------------------------
  // Visible characters

  lemma VisibleAppend(a: string, b: string)
    ensures Visible(a + b) == Visible(a) + Visible(b)
  {
    FilterAppend(a, b, IsVisible);
  }

  /** A string has no visible character exactly when it is all whitespace. */
  lemma {:induction false} VisibleEmpty(s: string)
    ensures Visible(s) == [] <==> AllWhitespace(s)
  {
    if s != [] {
      VisibleEmpty(s[1..]);
      assert s == [s[0]] + s[1..];
      VisibleAppend([s[0]], s[1..]);
    }
  }

  /** Trimming loses whitespace only. */
  lemma VisibleTrim(s: string)
    ensures Visible(Trim(s)) == Visible(s)
  {
    var a, b := TrimDecomposition(s);
    VisibleAppend(a + Trim(s), b);
    VisibleAppend(a, Trim(s));
    VisibleEmpty(a);
    VisibleEmpty(b);
  }

  lemma VisibleWhitespaceChar(c: char)
    requires IsWhitespace(c)
    ensures Visible([c]) == []
  {
    VisibleEmpty([c]);
  }

  /** Joining with a whitespace separator adds no visible character. */
  lemma {:induction false} VisibleJoin(parts: seq<string>, sep: char)
    requires IsWhitespace(sep)
    ensures Visible(Join(parts, sep)) == Visible(Concat(parts))
  {
    if |parts| > 1 {
      VisibleJoin(parts[1..], sep);
      VisibleAppend(parts[0] + [sep], Join(parts[1..], sep));
      VisibleAppend(parts[0], [sep]);
      VisibleWhitespaceChar(sep);
      VisibleAppend(parts[0], Concat(parts[1..]));
    } else if |parts| == 1 {
      assert parts[1..] == [];
      assert Concat(parts) == parts[0] + Concat([]);
      assert Concat(parts) == parts[0];
    }
  }

  lemma {:induction false} ConcatAppend(parts: seq<string>, x: string)
    ensures Concat(parts + [x]) == Concat(parts) + x
  {
    if parts == [] {
      assert Concat([x]) == x + Concat([]);
    } else {
      assert (parts + [x])[1..] == parts[1..] + [x];
      ConcatAppend(parts[1..], x);
    }
  }

  lemma {:induction false} ConcatJoin(xs: seq<string>, ys: seq<string>)
    ensures Concat(xs + ys) == Concat(xs) + Concat(ys)
  {
    if xs == [] {
      assert xs + ys == ys;
    } else {
      assert (xs + ys)[1..] == xs[1..] + ys;
      ConcatJoin(xs[1..], ys);
    }
  }

  // ---------------------------------------------------------------------
  // Split and join

  /** Joining the pieces of a split with the same separator gives the
      original string back. */
  lemma {:induction false} JoinSplit(s: string, sep: char)
    ensures Join(Split(s, sep), sep) == s
  {
    if s != [] {
      var rest := Split(s[1..], sep);
      JoinSplit(s[1..], sep);
      if s[0] == sep {
        assert Split(s, sep) == [[]] + rest;
      } else {
        var parts := Split(s, sep);
        assert parts[1..] == rest[1..];
        if |rest| == 1 {
          assert Join(parts, sep) == [s[0]] + rest[0];
        } else {
          assert Join(rest, sep) == rest[0] + [sep] + Join(rest[1..], sep);
          assert Join(parts, sep) == [s[0]] + rest[0] + [sep] + Join(rest[1..], sep);
        }
      }
    }
  }

  lemma {:induction false} SplitNoSeparator(a: string, sep: char)
    requires sep !in a
    ensures Split(a, sep) == [a]
  {
    if a != [] {
      assert a[0] in a;
      SplitNoSeparator(a[1..], sep);
      assert [a[0]] + a[1..] == a;
    }
  }

  lemma {:induction false} SplitAfterPiece(a: string, sep: char, t: string)
    requires sep !in a
    ensures Split(a + [sep] + t, sep) == [a] + Split(t, sep)
  {
    if a == [] {
      assert a + [sep] + t == [sep] + t;
    } else {
      assert a[0] in a;
      assert (a + [sep] + t)[1..] == a[1..] + [sep] + t;
      SplitAfterPiece(a[1..], sep, t);
      assert [a[0]] + a[1..] == a;
    }
  }

  /** Splitting a join of separator-free pieces gives the pieces back. */
  lemma {:induction false} SplitJoin(parts: seq<string>, sep: char)
    requires |parts| >= 1
    requires forall i :: 0 <= i < |parts| ==> sep !in parts[i]
    ensures Split(Join(parts, sep), sep) == parts
  {
    if |parts| == 1 {
      SplitNoSeparator(parts[0], sep);
    } else {
      SplitJoin(parts[1..], sep);
      SplitAfterPiece(parts[0], sep, Join(parts[1..], sep));
    }
  }

  /** The pieces of a split carry all the visible characters of the input
      when the separator is whitespace. */
  lemma VisibleSplit(s: string, sep: char)
    requires IsWhitespace(sep)
    ensures Visible(Concat(Split(s, sep))) == Visible(s)
  {
    VisibleJoin(Split(s, sep), sep);
    JoinSplit(s, sep);
  }

  // ---------------------------------------------------------------------
  // Contains

  /** `includes` holds exactly when the needle occurs at some position. */
  lemma {:induction false} ContainsIsInfix(s: string, sub: string)
    ensures Contains(s, sub) <==> IsInfix(sub, s)
    decreases |s|
  {
    OccursAtStart(sub, s);
    if sub <= s {
    } else if |s| > 0 {
      ContainsIsInfix(s[1..], sub);
      if IsInfix(sub, s) {
        var i :| OccursAt(sub, s, i);
        OccursShift(sub, s, i - 1);
      }
      if IsInfix(sub, s[1..]) {
        var i :| OccursAt(sub, s[1..], i);
        OccursShift(sub, s, i);
      }
    }
  }

  /** An occurrence at position 0 is a prefix. */
  lemma OccursAtStart(sub: string, s: string)
    ensures OccursAt(sub, s, 0) <==> sub <= s
  {
    if sub <= s {
      assert s[0..|sub|] == sub;
    }
  }

  /** An occurrence at `i + 1` in `s` is an occurrence at `i` in its tail. */
  lemma OccursShift(sub: string, s: string, i: int)
    requires |s| > 0 && 0 <= i
    ensures OccursAt(sub, s, i + 1) <==> OccursAt(sub, s[1..], i)
  {
    if 0 <= i <= |s| - 1 - |sub| {
      assert s[1..][i..i + |sub|] == s[i + 1..i + 1 + |sub|];
    }
  }

  /** A non-empty string with visible ends that occurs in `s` also occurs in
      the trim of `s`: trimming only removes whitespace from the ends. */
  lemma InfixOfTrim(x: string, s: string)
    requires x != [] && IsTrimmed(x)
    requires IsInfix(x, s)
    ensures IsInfix(x, Trim(s))
    ensures !AllWhitespace(s)
  {
    var a, b := TrimDecomposition(s);
    InfixOfMiddle(x, a, Trim(s), b);
  }

  /** A non-empty string with visible ends that occurs in `a + t + b`, where
      `a` and `b` are all whitespace, occurs in `t`. */
  lemma InfixOfMiddle(x: string, a: string, t: string, b: string)
    requires x != [] && IsTrimmed(x)
    requires AllWhitespace(a) && AllWhitespace(b)
    requires IsInfix(x, a + t + b)
    ensures IsInfix(x, t)
  {
    var s := a + t + b;
    var i :| OccursAt(x, s, i);
    var e := i + |x| - 1;
    assert s[i] == x[0];
    assert s[e] == x[|x| - 1];
    VisibleIsInside(a, t, b, i);
    VisibleIsInside(a, t, b, e);
    InfixShift(x, a, t, b, i);
  }

  lemma VisibleIsInside(a: string, t: string, b: string, k: int)
    requires AllWhitespace(a) && AllWhitespace(b)
    requires 0 <= k < |a + t + b| && IsVisible((a + t + b)[k])
    ensures |a| <= k < |a| + |t|
  {
  }

  lemma InfixShift(x: string, a: string, t: string, b: string, i: int)
    requires OccursAt(x, a + t + b, i)
    requires |a| <= i && i + |x| <= |a| + |t|
    ensures IsInfix(x, t)
  {
    var s := a + t + b;
    forall k | 0 <= k < |x|
      ensures t[i - |a| + k] == x[k]
    {
      assert s[i + k] == x[k];
      assert s[i + k] == t[i - |a| + k];
    }
    assert t[i - |a|..i - |a| + |x|] == x;
    assert OccursAt(x, t, i - |a|);
  }

  lemma InfixOfSelf(s: string)
    ensures IsInfix(s, s)
  {
    assert OccursAt(s, s, 0);
  }

  /** An occurrence survives adding text on either side. */
  lemma InfixExtend(x: string, a: string, s: string, b: string)
    requires IsInfix(x, s)
    ensures IsInfix(x, a + s + b)
  {
    var i :| OccursAt(x, s, i);
    assert (a + s + b)[|a| + i..|a| + i + |x|] == s[i..i + |x|];
    assert OccursAt(x, a + s + b, |a| + i);
  }

  lemma InfixTransitive(x: string, y: string, s: string)
    requires IsInfix(x, y) && IsInfix(y, s)
    ensures IsInfix(x, s)
  {
    var i :| OccursAt(x, y, i);
    var j :| OccursAt(y, s, j);
    forall k | 0 <= k < |x|
      ensures s[j + i + k] == x[k]
    {
      assert s[j + i + k] == y[i + k];
    }
    assert s[j + i..j + i + |x|] == x;
    assert OccursAt(x, s, j + i);
  }

  /** The trim of a string occurs inside it. */
  lemma TrimIsInfix(s: string)
    ensures IsInfix(Trim(s), s)
  {
    var a, b := TrimDecomposition(s);
    InfixOfSelf(Trim(s));
    InfixExtend(Trim(s), a, Trim(s), b);
  }

  /** Every piece of a join occurs inside it. */
  lemma {:induction false} PieceOfJoin(parts: seq<string>, sep: char, j: nat)
    requires j < |parts|
    ensures IsInfix(parts[j], Join(parts, sep))
  {
    InfixOfSelf(parts[j]);
    if |parts| > 1 {
      var rest := Join(parts[1..], sep);
      if j == 0 {
        InfixExtend(parts[0], [], parts[0], [sep] + rest);
        assert [] + parts[0] + ([sep] + rest) == Join(parts, sep);
      } else {
        PieceOfJoin(parts[1..], sep, j - 1);
        InfixExtend(parts[j], parts[0] + [sep], rest, []);
        assert parts[0] + [sep] + rest + [] == Join(parts, sep);
      }
    }
  }

  /** Every piece of a split occurs inside the split string. */
  lemma PieceOfSplit(s: string, sep: char, j: nat)
    requires j < |Split(s, sep)|
    ensures IsInfix(Split(s, sep)[j], s)
  {
    PieceOfJoin(Split(s, sep), sep, j);
    JoinSplit(s, sep);
  }
}

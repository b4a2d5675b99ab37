/**
 The string primitives the scanner relies on, with Python's meaning:
 - `Split` is `str.split()` with no separator (whitespace runs, no empty words),
 - `Join` is `' '.join(...)`,
 - `Normalise` is `' '.join(text.split())`, which collapses every whitespace run,
 - `Strip` is `str.strip()`,
 - `Contains` is the `in` operator on strings (literal substring search).
 */
module Text {

  /** Python's `str.isspace()`: the ASCII controls 9-13 and 28-31, the space,
      and the Unicode characters of category Zs or bidirectional class B/S/WS. */
  predicate IsWs(c: char) {
    || c == ' '
    || ('\t' <= c <= '\r')
    || ('\U{1C}' <= c <= '\U{1F}')
    || c == '\U{85}' || c == '\U{A0}' || c == '\U{1680}'
    || ('\U{2000}' <= c <= '\U{200A}')
    || c == '\U{2028}' || c == '\U{2029}' || c == '\U{202F}'
    || c == '\U{205F}' || c == '\U{3000}'
  }

  /** True iff `s` holds no whitespace character at all. */
  predicate NoWs(s: string) {
    forall i :: 0 <= i < |s| ==> !IsWs(s[i])
  }

  /** True iff `s` is made of whitespace only (the empty string included). */
  predicate AllWs(s: string) {
    forall i :: 0 <= i < |s| ==> IsWs(s[i])
  }

  /** Every word is non-empty and free of whitespace, as `str.split()` returns them. */
  predicate CleanWords(words: seq<string>) {
    forall k :: 0 <= k < |words| ==> words[k] != [] && NoWs(words[k])
  }

  /** The shape `' '.join(t.split())` always has: every whitespace character is a
      plain space that sits strictly inside the string and is followed by a
      non-whitespace character (no leading, trailing or doubled separators). */
  predicate IsNormal(s: string) {
    forall i :: 0 <= i < |s| && IsWs(s[i]) ==>
      s[i] == ' ' && 0 < i < |s| - 1 && !IsWs(s[i + 1])
  }

  /** Weaker than `IsNormal`: whitespace is plain and never doubled, but may
      touch either end. Every substring of a normal string has this shape. */
  predicate IsSpaced(s: string) {
    forall i :: 0 <= i < |s| && IsWs(s[i]) ==>
      s[i] == ' ' && (i + 1 < |s| ==> !IsWs(s[i + 1]))
  }

  /** `needle` occurs in `hay` starting at index `i`. */
  predicate OccursAt(hay: string, needle: string, i: int) {
    0 <= i && i + |needle| <= |hay| && hay[i..i + |needle|] == needle
  }

  /** Python's `needle in hay` for strings. The empty needle occurs everywhere. */
  predicate Contains(hay: string, needle: string) {
    exists i | 0 <= i <= |hay| - |needle| :: OccursAt(hay, needle, i)
  }

  /** Python's `s.split()`: the maximal whitespace-free runs of `s`, in order.
      A non-whitespace character either extends the word that the rest of the
      string starts with, or starts a word of its own. */
  function Split(s: string): (words: seq<string>)
    ensures s != [] && !IsWs(s[0]) ==> words != [] && words[0] != [] && words[0][0] == s[0]
  {
    if s == [] then []
    else if IsWs(s[0]) then Split(s[1..])
    else
      var rest := Split(s[1..]);
      if |s| > 1 && !IsWs(s[1]) then [[s[0]] + rest[0]] + rest[1..]
      else [[s[0]]] + rest
  }

  /** Python's `' '.join(words)`. */
  function Join(words: seq<string>): string
  {
    if |words| == 0 then []
    else if |words| == 1 then words[0]
    else words[0] + " " + Join(words[1..])
  }

  /** `' '.join(text.split())`: every whitespace run becomes one space and
      whitespace at either end disappears. */
  function Normalise(text: string): (r: string)
    ensures IsNormal(r)
  {
    var words := Split(text);
    SplitIsClean(text);
    JoinIsNormal(words);
    Join(words)
  }

  /** Removes the leading whitespace run. */
  function DropWs(s: string): (r: string)
    ensures |r| <= |s| && r == s[|s| - |r|..]
    ensures r == [] || !IsWs(r[0])
    ensures AllWs(s[..|s| - |r|])
  {
    if s != [] && IsWs(s[0]) then
      var r := DropWs(s[1..]);
      LeadingWsStep(s, r);
      r
    else s
  }

  lemma LeadingWsStep(s: string, r: string)
    requires s != [] && IsWs(s[0]) && |r| <= |s| - 1
    requires r == s[1..][|s| - 1 - |r|..] && AllWs(s[1..][..|s| - 1 - |r|])
    ensures r == s[|s| - |r|..] && AllWs(s[..|s| - |r|])
  {
    forall i | 0 <= i < |s| - |r| ensures IsWs(s[i]) {
      if i > 0 {
        assert s[i] == s[1..][..|s| - 1 - |r|][i - 1];
      }
    }
  }

  /** Removes the trailing whitespace run. */
  function DropTrailingWs(s: string): (r: string)
    ensures |r| <= |s| && r == s[..|r|]
    ensures r == [] || !IsWs(r[|r| - 1])
    ensures AllWs(s[|r|..])
  {
    if s != [] && IsWs(s[|s| - 1]) then
      var r := DropTrailingWs(s[..|s| - 1]);
      TrailingWsStep(s, r);
      r
    else s
  }

  lemma TrailingWsStep(s: string, r: string)
    requires s != [] && IsWs(s[|s| - 1]) && |r| <= |s| - 1
    requires r == s[..|s| - 1][..|r|] && AllWs(s[..|s| - 1][|r|..])
    ensures r == s[..|r|] && AllWs(s[|r|..])
  {
    forall i | |r| <= i < |s| ensures IsWs(s[i]) {
      if i < |s| - 1 {
        assert s[i] == s[..|s| - 1][|r|..][i - |r|];
      }
    }
  }

  /** Python's `s.strip()`: the infix left after removing whitespace at both ends. */
  function Strip(s: string): (r: string)
    ensures r == [] || (!IsWs(r[0]) && !IsWs(r[|r| - 1]))
    ensures r == [] <==> AllWs(s)
  {
    var t := DropWs(s);
    var r := DropTrailingWs(t);
    StripOccurs(s, t, r);
    StripEmptyIff(s, t, r);
    r
  }

  /** `r` sits in `s` at index `i` with only whitespace before and after it. */
  predicate WsAround(s: string, r: string, i: int) {
    OccursAt(s, r, i) && AllWs(s[..i]) && AllWs(s[i + |r|..])
  }

  /** What `strip()` leaves is the infix of its input that only whitespace
      surrounds: nothing but the two end runs is removed. */
  lemma StripIsInfix(s: string)
    ensures exists i :: WsAround(s, Strip(s), i)
    ensures Contains(s, Strip(s))
  {
    var t := DropWs(s);
    var r := DropTrailingWs(t);
    StripAround(s, t, r);
    assert Strip(s) == r;
  }

  /** The two trims leave an infix with only whitespace before and after it. */
  lemma StripAround(s: string, t: string, r: string)
    requires |t| <= |s| && t == s[|s| - |t|..] && AllWs(s[..|s| - |t|])
    requires |r| <= |t| && r == t[..|r|] && AllWs(t[|r|..])
    ensures WsAround(s, r, |s| - |t|)
    ensures Contains(s, r)
  {
    var i := |s| - |t|;
    assert s[i..i + |r|] == r;
    assert s[i + |r|..] == t[|r|..];
    assert OccursAt(s, r, i);
  }

  /** `strip()` is determined by its contract: any infix that starts and ends
      with a visible character and has only whitespace around it is the strip. */
  lemma StripUnique(s: string, r: string, i: int)
    requires WsAround(s, r, i)
    requires r == [] || (!IsWs(r[0]) && !IsWs(r[|r| - 1]))
    requires r == [] <==> AllWs(s)
    ensures r == Strip(s)
  {
    StripIsInfix(s);
    var r' := Strip(s);
    var j :| WsAround(s, r', j);
    if r != [] {
      assert r' != [];
      WsAroundSame(s, r, i, r', j);
    }
  }

  /** Two visible-ended infixes with only whitespace around them coincide. */
  lemma WsAroundSame(s: string, r: string, i: int, r': string, j: int)
    requires WsAround(s, r, i) && r != [] && !IsWs(r[0]) && !IsWs(r[|r| - 1])
    requires WsAround(s, r', j) && r' != [] && !IsWs(r'[0]) && !IsWs(r'[|r'| - 1])
    ensures r == r'
  {
    assert s[i] == r[0];
    assert s[j] == r'[0];
    assert i == j;
    assert s[i + |r| - 1] == r[|r| - 1];
    assert s[j + |r'| - 1] == r'[|r'| - 1];
    assert |r| == |r'|;
  }

  /** The two trims leave an infix of `s` that starts with a visible character. */
  lemma StripOccurs(s: string, t: string, r: string)
    requires |t| <= |s| && t == s[|s| - |t|..] && (t == [] || !IsWs(t[0]))
    requires |r| <= |t| && r == t[..|r|]
    ensures OccursAt(s, r, |s| - |t|)
    ensures r == [] || !IsWs(r[0])
  {
    assert s[|s| - |t|..][..|r|] == r;
  }

  /** The two trims leave nothing exactly when `s` is all whitespace. */
  lemma StripEmptyIff(s: string, t: string, r: string)
    requires |t| <= |s| && t == s[|s| - |t|..] && (t == [] || !IsWs(t[0]))
    requires AllWs(s[..|s| - |t|])
    requires |r| <= |t| && r == t[..|r|] && AllWs(t[|r|..])
    ensures r == [] <==> AllWs(s)
  {
    if r == [] {
      assert t[|r|..] == t;
      assert s[..|s| - |t|] == s;
    }
  }

  /** The longest prefix that holds no whitespace. */
  function TakeWord(s: string): (r: string)
    ensures |r| <= |s| && r == s[..|r|]
    ensures NoWs(r)
    ensures |r| == |s| || IsWs(s[|r|])
  {
    if s == [] || IsWs(s[0]) then [] else [s[0]] + TakeWord(s[1..])
  }

  /** The longest suffix that holds no whitespace. */
  function TrailingWord(s: string): (r: string)
    ensures |r| <= |s| && r == s[|s| - |r|..]
    ensures NoWs(r)
    ensures |r| == |s| || IsWs(s[|s| - |r| - 1])
  {
    if s == [] || IsWs(s[|s| - 1]) then [] else TrailingWord(s[..|s| - 1]) + [s[|s| - 1]]
  }

  // ---------------------------------------------------------------------------
  // Facts about splitting and joining
  // ---------------------------------------------------------------------------

  lemma CleanWordsCons(w: string, rest: seq<string>)
    requires w != [] && NoWs(w) && CleanWords(rest)
    ensures CleanWords([w] + rest)
  {
    forall k | 0 <= k < |rest| + 1 ensures ([w] + rest)[k] != [] && NoWs(([w] + rest)[k]) {
      if k > 0 { assert ([w] + rest)[k] == rest[k - 1]; }
    }
  }

  lemma NoWsCons(c: char, w: string)
    requires !IsWs(c) && NoWs(w)
    ensures NoWs([c] + w)
  {
    forall i | 0 <= i < |w| + 1 ensures !IsWs(([c] + w)[i]) {
      if i > 0 { assert ([c] + w)[i] == w[i - 1]; }
    }
  }

  /** Every word `Split` returns is non-empty and free of whitespace. */
  lemma {:induction false} SplitIsClean(s: string)
    ensures CleanWords(Split(s))
  {
    if s != [] {
      SplitIsClean(s[1..]);
      var rest := Split(s[1..]);
      if !IsWs(s[0]) {
        if |s| > 1 && !IsWs(s[1]) {
          NoWsCons(s[0], rest[0]);
          CleanWordsCons([s[0]] + rest[0], rest[1..]);
        } else {
          NoWsCons(s[0], []);
          CleanWordsCons([s[0]], rest);
        }
      }
    }
  }

  lemma JoinAppend(xs: seq<string>, ys: seq<string>)
    requires xs != [] && ys != []
    ensures Join(xs + ys) == Join(xs) + " " + Join(ys)
  {
    if |xs| == 1 {
      assert (xs + ys)[1..] == ys;
    } else {
      assert (xs + ys)[1..] == xs[1..] + ys;
      JoinAppend(xs[1..], ys);
    }
  }

  /** Extending the first word by one character extends the join by that character. */
  lemma JoinExtendFirst(c: char, words: seq<string>)
    requires words != []
    ensures Join([[c] + words[0]] + words[1..]) == [c] + Join(words)
  {
    if |words| > 1 {
      var w, rest := words[0], words[1..];
      assert words == [w] + rest;
      JoinCons([c] + w, rest);
      JoinCons(w, rest);
      SeqAssoc([c], w, " " + Join(rest));
    } else {
      assert Join([[c] + words[0]] + words[1..]) == [c] + words[0];
    }
  }

  /** One step of `Join` on a list of at least two words. */
  lemma JoinCons(w: string, rest: seq<string>)
    requires rest != []
    ensures Join([w] + rest) == w + " " + Join(rest)
  {
    assert ([w] + rest)[1..] == rest;
  }

  /** One step of `Split` on a leading whitespace character. */
  lemma SplitConsWs(c: char, x: string)
    requires IsWs(c)
    ensures Split([c] + x) == Split(x)
  {
    assert ([c] + x)[1..] == x;
  }

  /** One step of `Split` on a word character followed by another one. */
  lemma SplitConsExtend(c: char, x: string)
    requires !IsWs(c) && x != [] && !IsWs(x[0])
    ensures Split([c] + x) == [[c] + Split(x)[0]] + Split(x)[1..]
  {
    assert ([c] + x)[1..] == x;
    assert ([c] + x)[1] == x[0];
  }

  /** One step of `Split` on a word character that ends its word. */
  lemma SplitConsEnd(c: char, x: string)
    requires !IsWs(c) && (x == [] || IsWs(x[0]))
    ensures Split([c] + x) == [[c]] + Split(x)
  {
    assert ([c] + x)[1..] == x;
    assert x != [] ==> ([c] + x)[1] == x[0];
  }

  /** Splitting distributes over concatenation when the seam is whitespace on
      at least one side, so that no word straddles it. */
  lemma {:induction false} SplitConcat(a: string, b: string)
    requires a == [] || b == [] || IsWs(a[|a| - 1]) || IsWs(b[0])
    ensures Split(a + b) == Split(a) + Split(b)
  {
    if a == [] {
      assert a + b == b;
    } else {
      var c, a' := a[0], a[1..];
      assert a == [c] + a';
      assert a + b == [c] + (a' + b);
      assert a' != [] ==> a'[|a'| - 1] == a[|a| - 1];
      SplitConcat(a', b);
      SplitConcatCons(c, a', b);
    }
  }

  /** The inductive step of `SplitConcat`: one more character in front. */
  lemma SplitConcatCons(c: char, a': string, b: string)
    requires b == [] || IsWs(b[0]) || (if a' == [] then IsWs(c) else IsWs(a'[|a'| - 1]))
    requires Split(a' + b) == Split(a') + Split(b)
    ensures Split([c] + (a' + b)) == Split([c] + a') + Split(b)
  {
    if IsWs(c) {
      SplitConsWs(c, a');
      SplitConsWs(c, a' + b);
    } else if a' != [] && !IsWs(a'[0]) {
      SplitConcatExtend(c, a', b);
    } else if a' != [] {
      SplitConcatEnd(c, a', b);
    } else {
      assert a' + b == b;
      SplitConsEnd(c, a');
      SplitConsEnd(c, b);
    }
  }

  lemma SplitConcatEnd(c: char, a': string, b: string)
    requires !IsWs(c) && a' != [] && IsWs(a'[0])
    requires Split(a' + b) == Split(a') + Split(b)
    ensures Split([c] + (a' + b)) == Split([c] + a') + Split(b)
  {
    var x := a' + b;
    assert x[0] == a'[0];
    SplitConsEnd(c, a');
    SplitConsEnd(c, x);
    SeqAssoc([[c]], Split(a'), Split(b));
  }

  lemma SplitConcatExtend(c: char, a': string, b: string)
    requires !IsWs(c) && a' != [] && !IsWs(a'[0])
    requires Split(a' + b) == Split(a') + Split(b)
    ensures Split([c] + (a' + b)) == Split([c] + a') + Split(b)
  {
    var x := a' + b;
    assert x[0] == a'[0];
    SplitConsExtend(c, a');
    SplitConsExtend(c, x);
    ExtendFirstOfConcat(c, Split(a'), Split(b));
  }

  /** Extending the first word of `ra + rb` extends the first word of `ra`. */
  lemma ExtendFirstOfConcat(c: char, ra: seq<string>, rb: seq<string>)
    requires ra != []
    ensures [[c] + (ra + rb)[0]] + (ra + rb)[1..] == ([[c] + ra[0]] + ra[1..]) + rb
  {
    assert (ra + rb)[1..] == ra[1..] + rb;
    SeqAssoc([[c] + ra[0]], ra[1..], rb);
  }

  lemma SeqAssoc<T>(a: seq<T>, b: seq<T>, c: seq<T>)
    ensures a + (b + c) == (a + b) + c
  {
  }

  lemma ContainsTrans(a: string, b: string, c: string)
    requires Contains(a, b) && Contains(b, c)
    ensures Contains(a, c)
  {
    var i :| 0 <= i <= |a| - |b| && OccursAt(a, b, i);
    var j :| 0 <= j <= |b| - |c| && OccursAt(b, c, j);
    forall k | 0 <= k < |c| ensures a[i + j + k] == c[k] {
      assert a[i + j + k] == a[i..i + |b|][j + k];
      assert c[k] == b[j..j + |c|][k];
    }
    assert a[i + j..i + j + |c|] == c;
    assert OccursAt(a, c, i + j);
  }

  lemma ContainsMiddle(x: string, s: string, y: string)
    ensures Contains(x + s + y, s)
  {
    assert (x + s + y)[|x|..|x| + |s|] == s;
    assert OccursAt(x + s + y, s, |x|);
  }

  /** A string without whitespace at either end is its own strip. */
  lemma StripTrimmed(s: string)
    requires s != [] && !IsWs(s[0]) && !IsWs(s[|s| - 1])
    ensures Strip(s) == s
  {
  }

  lemma ContainsEmpty(hay: string)
    ensures Contains(hay, [])
  {
    assert OccursAt(hay, [], 0);
  }

  /** The join of a block of words occurs in the join of any list holding that block. */
  lemma JoinInfix(xs: seq<string>, ys: seq<string>, zs: seq<string>)
    requires ys != []
    ensures Contains(Join(xs + ys + zs), Join(ys))
  {
    var left := if xs == [] then [] else Join(xs) + " ";
    var right := if zs == [] then [] else " " + Join(zs);
    JoinRight(ys, zs);
    JoinLeft(xs, ys + zs);
    SeqAssoc(xs, ys, zs);
    SeqAssoc(left, Join(ys), right);
    ContainsMiddle(left, Join(ys), right);
  }

  lemma JoinRight(ys: seq<string>, zs: seq<string>)
    requires ys != []
    ensures Join(ys + zs) == Join(ys) + (if zs == [] then [] else " " + Join(zs))
  {
    if zs != [] { JoinAppend(ys, zs); } else { assert ys + zs == ys; }
  }

  lemma JoinLeft(xs: seq<string>, ys: seq<string>)
    requires ys != []
    ensures Join(xs + ys) == (if xs == [] then [] else Join(xs) + " ") + Join(ys)
  {
    if xs != [] { JoinAppend(xs, ys); } else { assert xs + ys == ys; }
  }

  // ---------------------------------------------------------------------------
  // Properties of whitespace normalisation
  // ---------------------------------------------------------------------------

  /** A clean word, a space and a non-empty normal string make a normal string. */
  lemma GlueSpaceIsNormal(w: string, rest: string)
    requires w != [] && NoWs(w) && rest != [] && IsNormal(rest)
    ensures IsNormal(w + " " + rest) && !IsWs((w + " " + rest)[0])
  {
    var s := w + " " + rest;
    assert !IsWs(rest[0]);
    forall i | 0 <= i < |s|
      ensures IsWs(s[i]) ==> s[i] == ' ' && 0 < i < |s| - 1 && !IsWs(s[i + 1])
    {
      if i < |w| {
        assert s[i] == w[i];
      } else if i == |w| {
        assert s[i + 1] == rest[0];
      } else {
        assert s[i] == rest[i - |w| - 1];
        assert i + 1 < |s| ==> s[i + 1] == rest[i - |w|];
      }
    }
    assert s[0] == w[0];
  }

  /** Joining clean words with single spaces yields a normal string. */
  lemma {:induction false} JoinIsNormal(words: seq<string>)
    requires CleanWords(words)
    ensures IsNormal(Join(words))
    ensures words != [] ==> Join(words) != [] && !IsWs(Join(words)[0])
  {
    if |words| > 1 {
      JoinIsNormal(words[1..]);
      GlueSpaceIsNormal(words[0], Join(words[1..]));
    }
  }

  /** Collapsing keeps the words: splitting the collapsed text gives back the
      words of the original. */
  lemma NormaliseKeepsWords(text: string)
    ensures Split(Normalise(text)) == Split(text)
  {
    SplitIsClean(text);
    SplitJoin(Split(text));
  }

  /** Dropping a prefix of a normal string up to a word character leaves a
      normal string. */
  lemma NormalTail(s: string, k: nat)
    requires IsNormal(s) && 0 < k < |s| && !IsWs(s[k])
    ensures IsNormal(s[k..])
  {
    var s' := s[k..];
    forall i | 0 <= i < |s'|
      ensures IsWs(s'[i]) ==> s'[i] == ' ' && 0 < i < |s'| - 1 && !IsWs(s'[i + 1])
    {
      assert s'[i] == s[k + i];
      assert i + 1 < |s'| ==> s'[i + 1] == s[k + i + 1];
    }
  }

  /** A normal string is left unchanged by normalisation. */
  lemma {:induction false} NormalFixedPoint(s: string)
    requires IsNormal(s)
    ensures Normalise(s) == s
    decreases |s|
  {
    if |s| == 1 {
      assert !IsWs(s[0]);
      assert s == [s[0]] + [];
      SplitConsEnd(s[0], []);
    } else if |s| > 1 {
      var c := s[0];
      assert !IsWs(c);
      if !IsWs(s[1]) {
        NormalTail(s, 1);
        NormalFixedPoint(s[1..]);
        JoinExtendFirst(c, Split(s[1..]));
        assert [c] + s[1..] == s;
      } else {
        assert s[1] == ' ' && |s| > 2 && !IsWs(s[2]);
        NormalTail(s, 2);
        NormalFixedPoint(s[2..]);
        assert Split(s) == [[c]] + Split(s[2..]) by {
          assert s[1..] == [s[1]] + s[2..];
          SplitConsWs(s[1], s[2..]);
          assert s == [c] + s[1..];
          SplitConsEnd(c, s[1..]);
        }
        JoinAppend([[c]], Split(s[2..]));
        assert [c] + " " + s[2..] == s;
      }
    }
  }

  /** Normalisation is idempotent. */
  lemma NormaliseIdempotent(text: string)
    ensures Normalise(Normalise(text)) == Normalise(text)
  {
    NormalFixedPoint(Normalise(text));
  }

  /** The normal strings are exactly the fixed points of normalisation. */
  lemma NormaliseFixedIff(s: string)
    ensures Normalise(s) == s <==> IsNormal(s)
  {
    if IsNormal(s) {
      NormalFixedPoint(s);
    }
  }

  /** A clean word splits to itself. */
  lemma {:induction false} SplitWord(w: string)
    requires w != [] && NoWs(w)
    ensures Split(w) == [w]
  {
    if |w| > 1 {
      assert NoWs(w[1..]) by {
        forall i | 0 <= i < |w| - 1 ensures !IsWs(w[1..][i]) {
          assert w[1..][i] == w[i + 1];
        }
      }
      SplitWord(w[1..]);
      assert [w[0]] + w[1..] == w;
      SplitConsExtend(w[0], w[1..]);
      assert Split(w[1..])[1..] == [];
    } else {
      var e: string := [];
      assert w == [w[0]] + e;
      SplitConsEnd(w[0], e);
      assert Split(e) == [];
      assert [w[0]] == w;
    }
  }

  /** Round trip: splitting a single-space join of clean words gives the words back. */
  lemma {:induction false} SplitJoin(words: seq<string>)
    requires CleanWords(words)
    ensures Split(Join(words)) == words
  {
    if |words| == 1 {
      SplitWord(words[0]);
    } else if |words| > 1 {
      var w := words[0];
      var rest := Join(words[1..]);
      assert CleanWords(words[1..]);
      SplitJoin(words[1..]);
      calc {
        Split(Join(words));
        { assert Join(words) == w + " " + rest == w + (" " + rest); }
        Split(w + (" " + rest));
        { SplitConcat(w, " " + rest); }
        Split(w) + Split(" " + rest);
        { SplitWord(w); assert " " + rest == [' '] + rest; SplitConsWs(' ', rest); }
        [w] + Split(rest);
        words;
      }
    }
  }

  /** A substring of a normal string has only single plain spaces. */
  lemma InfixOfNormalIsSpaced(hay: string, needle: string)
    requires IsNormal(hay) && Contains(hay, needle)
    ensures IsSpaced(needle)
  {
    var p :| 0 <= p <= |hay| - |needle| && OccursAt(hay, needle, p);
    forall i | 0 <= i < |needle|
      ensures IsWs(needle[i]) ==> needle[i] == ' ' && (i + 1 < |needle| ==> !IsWs(needle[i + 1]))
    {
      assert needle[i] == hay[p + i];
      assert i + 1 < |needle| ==> needle[i + 1] == hay[p + i + 1];
    }
  }

  /** Gluing whitespace-free runs onto both ends of a normal string keeps it normal. */
  lemma GlueIsNormal(x: string, s: string, y: string)
    requires NoWs(x) && NoWs(y) && IsNormal(s) && s != []
    ensures IsNormal(x + s + y)
  {
    var m := x + s + y;
    forall i | 0 <= i < |m|
      ensures IsWs(m[i]) ==> m[i] == ' ' && 0 < i < |m| - 1 && !IsWs(m[i + 1])
    {
      if i < |x| {
        assert m[i] == x[i];
      } else if i < |x| + |s| {
        assert m[i] == s[i - |x|];
        assert i + 1 < |x| + |s| ==> m[i + 1] == s[i - |x| + 1];
      } else {
        assert m[i] == y[i - |x| - |s|];
      }
    }
  }

  lemma Regroup(a: string, b: string, c: string, d: string, e: string)
    ensures (a + b) + c + (d + e) == a + ((b + c + d) + e)
  {
  }

  /** A normal string occurring anywhere in the raw text still occurs after
      normalisation, whatever surrounds it. */
  lemma NormalisePreservesNormalInfix(u: string, s: string, v: string)
    requires IsNormal(s) && s != []
    ensures Contains(Normalise(u + s + v), s)
  {
    var u0, x := SplitOffTrailingWord(u);
    var y, v0 := SplitOffLeadingWord(v);
    Regroup(u0, x, s, y, v0);
    GlueIsNormal(x, s, y);
    NormaliseAroundNormal(u0, x + s + y, v0);
    ContainsMiddle(x, s, y);
    ContainsTrans(Normalise(u + s + v), x + s + y, s);
  }

  /** Cuts `u` before its trailing whitespace-free run. */
  lemma SplitOffTrailingWord(u: string) returns (u0: string, x: string)
    ensures u == u0 + x && NoWs(x)
    ensures u0 == [] || IsWs(u0[|u0| - 1])
  {
    x := TrailingWord(u);
    u0 := u[..|u| - |x|];
    assert u == u0 + x;
  }

  /** Cuts `v` after its leading whitespace-free run. */
  lemma SplitOffLeadingWord(v: string) returns (y: string, v0: string)
    ensures v == y + v0 && NoWs(y)
    ensures v0 == [] || IsWs(v0[0])
  {
    y := TakeWord(v);
    v0 := v[|y|..];
    assert v == y + v0;
  }

  /** A normal string `m` that whitespace (or a string end) separates from its
      neighbours survives normalisation as a substring. */
  lemma NormaliseAroundNormal(u0: string, m: string, v0: string)
    requires IsNormal(m) && m != []
    requires u0 == [] || IsWs(u0[|u0| - 1])
    requires v0 == [] || IsWs(v0[0])
    ensures Contains(Normalise(u0 + (m + v0)), m)
  {
    SplitAroundWord(u0, m, v0);
    NormalHasWords(m);
    NormalFixedPoint(m);
    JoinInfix(Split(u0), Split(m), Split(v0));
  }

  /** Whitespace on both sides of `m` keeps its words apart from the rest. */
  lemma SplitAroundWord(u0: string, m: string, v0: string)
    requires m != []
    requires u0 == [] || IsWs(u0[|u0| - 1])
    requires v0 == [] || IsWs(v0[0])
    ensures Split(u0 + (m + v0)) == Split(u0) + Split(m) + Split(v0)
  {
    SplitConcat(m, v0);
    SplitConcat(u0, m + v0);
    SeqAssoc(Split(u0), Split(m), Split(v0));
  }

  /** A non-empty normal string has at least one word. */
  lemma NormalHasWords(m: string)
    requires IsNormal(m) && m != []
    ensures Split(m) != []
  {
    NormalFixedPoint(m);
    assert Split(m) == [] ==> Normalise(m) == [];
  }

  /** Containment form of `NormalisePreservesNormalInfix`. */
  lemma NormalisePreservesContains(text: string, s: string)
    requires IsNormal(s) && s != [] && Contains(text, s)
    ensures Contains(Normalise(text), s)
  {
    var i :| 0 <= i <= |text| - |s| && OccursAt(text, s, i);
    assert text == text[..i] + s + text[i + |s|..];
    NormalisePreservesNormalInfix(text[..i], s, text[i + |s|..]);
  }
}

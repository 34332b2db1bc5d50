/**
 * The few Python `str` operations the scraper relies on, stated over
 * `seq<char>`: whitespace as `str.isspace` defines it, `startswith`, the
 * substring test `in`, `split(sep)`, `split()` and `strip()`.
 */
module Text {
  import opened Seqs

  /** A character `str.isspace` accepts; `split()` and `strip()` with no
      argument separate and trim on exactly these. */
  predicate IsSpace(c: char)
  {
    ('\t' <= c <= '\r') || ('\U{1C}' <= c <= '\U{1F}') || c == ' '
    || c == '\U{85}' || c == '\U{A0}' || c == '\U{1680}'
    || ('\U{2000}' <= c <= '\U{200A}') || c == '\U{2028}' || c == '\U{2029}'
    || c == '\U{202F}' || c == '\U{205F}' || c == '\U{3000}'
  }

  predicate NotSpace(c: char) { !IsSpace(c) }

  predicate AllSpace(s: string) { forall i :: 0 <= i < |s| ==> IsSpace(s[i]) }

  predicate NoSpace(s: string) { forall i :: 0 <= i < |s| ==> !IsSpace(s[i]) }

  /** `s.startswith(prefix)` */
  predicate StartsWith(s: string, prefix: string)
  {
    |prefix| <= |s| && s[..|prefix|] == prefix
  }

  /** `sub` occurs in `s` starting at index `i`. */
  predicate OccursAt(s: string, sub: string, i: nat)
  {
    i + |sub| <= |s| && s[i..i + |sub|] == sub
  }

  /** `sub in s` */
  predicate Contains(s: string, sub: string)
  {
    exists i: nat :: i <= |s| && OccursAt(s, sub, i)
  }

  /** Length of the longest prefix of `s` whose characters all satisfy `p`. */
  function PrefixRun(s: string, p: char -> bool): (n: nat)
    ensures n <= |s|
    ensures forall i :: 0 <= i < n ==> p(s[i])
    ensures n < |s| ==> !p(s[n])
  {
    if s == [] || !p(s[0]) then 0 else 1 + PrefixRun(s[1..], p)
  }

  lemma {:induction false} PrefixRunAppend(a: string, b: string, p: char -> bool)
    requires PrefixRun(a, p) < |a| || (b != [] && !p(b[0]))
    ensures PrefixRun(a + b, p) == PrefixRun(a, p)
  {
    if a == [] {
    } else if !p(a[0]) {
    } else {
      assert (a + b)[1..] == a[1..] + b;
      PrefixRunAppend(a[1..], b, p);
    }
  }

  // ---------------------------------------------------------------------
  // s.split(sep) with an explicit one-character separator

  /** `s.split(sep)`: the pieces between occurrences of `sep`, empty
      pieces included, so there is always at least one piece. */
  function SplitOn(s: string, sep: char): (r: seq<string>)
    ensures |r| >= 1
  {
    if s == [] then [[]]
    else
      var rest := SplitOn(s[1..], sep);
      if s[0] == sep then [[]] + rest
      else [[s[0]] + rest[0]] + rest[1..]
  }

  /** No piece of a split contains the separator. */
  lemma {:induction false} SplitOnPiecesLackSep(s: string, sep: char)
    ensures forall k :: 0 <= k < |SplitOn(s, sep)| ==> sep !in SplitOn(s, sep)[k]
  {
    if s != [] {
      SplitOnPiecesLackSep(s[1..], sep);
    }
  }

  /** `sep.join(parts)` */
  function JoinWith(parts: seq<string>, sep: char): string
  {
    if parts == [] then []
    else if |parts| == 1 then parts[0]
    else parts[0] + [sep] + JoinWith(parts[1..], sep)
  }

  /** Joining the pieces of a split gives the original text back. */
  lemma {:induction false} SplitThenJoin(s: string, sep: char)
    ensures JoinWith(SplitOn(s, sep), sep) == s
  {
    if s != [] {
      var rest := SplitOn(s[1..], sep);
      SplitThenJoin(s[1..], sep);
      if s[0] == sep {
        assert JoinWith([[]] + rest, sep) == [] + [sep] + JoinWith(rest, sep);
      } else if |rest| == 1 {
        assert SplitOn(s, sep) == [[s[0]] + rest[0]];
      } else {
        var r := SplitOn(s, sep);
        assert r[1..] == rest[1..];
        assert JoinWith(rest, sep) == rest[0] + [sep] + JoinWith(rest[1..], sep);
      }
    }
  }

  /** A text without the separator is a single piece. */
  lemma {:induction false} SplitOnNoSep(s: string, sep: char)
    requires sep !in s
    ensures SplitOn(s, sep) == [s]
  {
    if s != [] {
      assert sep !in s[1..];
      SplitOnNoSep(s[1..], sep);
      assert [s[0]] + s[1..] == s;
    }
  }

  /** Splitting distributes over a separator: the lines of `a + sep + b`
      are the lines of `a` followed by the lines of `b`. */
  lemma {:induction false} SplitOnAppend(a: string, b: string, sep: char)
    ensures SplitOn(a + [sep] + b, sep) == SplitOn(a, sep) + SplitOn(b, sep)
  {
    if a == [] {
      assert a + [sep] + b == [sep] + b;
      SplitOnSepStep(b, sep);
    } else {
      var c, a' := a[0], a[1..];
      SplitOnAppend(a', b, sep);
      assert a + [sep] + b == [c] + (a' + [sep] + b);
      assert a == [c] + a';
      SplitOnAppendStep(c, a', b, sep);
    }
  }

  /** The inductive step of SplitOnAppend. */
  lemma SplitOnAppendStep(c: char, a: string, b: string, sep: char)
    requires SplitOn(a + [sep] + b, sep) == SplitOn(a, sep) + SplitOn(b, sep)
    ensures SplitOn([c] + (a + [sep] + b), sep) == SplitOn([c] + a, sep) + SplitOn(b, sep)
  {
    var t := a + [sep] + b;
    var ra, rb := SplitOn(a, sep), SplitOn(b, sep);
    if c == sep {
      SplitOnSepStep(t, sep);
      SplitOnSepStep(a, sep);
      AppendAssoc([[]], ra, rb);
    } else {
      SplitOnCharStep(c, t, sep);
      SplitOnCharStep(c, a, sep);
      AppendHeadTail(ra, rb);
      AppendAssoc([[c] + ra[0]], ra[1..], rb);
    }
  }

  /** `SplitOn` on a text that starts with the separator. */
  lemma SplitOnSepStep(t: string, sep: char)
    ensures SplitOn([sep] + t, sep) == [[]] + SplitOn(t, sep)
  {
    assert ([sep] + t)[1..] == t;
  }

  /** `SplitOn` on a text that starts with another character. */
  lemma SplitOnCharStep(c: char, t: string, sep: char)
    requires c != sep
    ensures SplitOn([c] + t, sep) == [[c] + SplitOn(t, sep)[0]] + SplitOn(t, sep)[1..]
  {
    assert ([c] + t)[1..] == t;
  }

  /** Splitting the joined pieces gives the pieces back, when no piece
      contains the separator. */
  lemma {:induction false} JoinThenSplit(parts: seq<string>, sep: char)
    requires |parts| >= 1
    requires forall k :: 0 <= k < |parts| ==> sep !in parts[k]
    ensures SplitOn(JoinWith(parts, sep), sep) == parts
  {
    if |parts| == 1 {
      SplitOnNoSep(parts[0], sep);
    } else {
      JoinThenSplit(parts[1..], sep);
      SplitOnAppend(parts[0], JoinWith(parts[1..], sep), sep);
      SplitOnNoSep(parts[0], sep);
    }
  }

  // ---------------------------------------------------------------------
  // s.split() with no argument

  /** `s.split()`: the maximal runs of non-whitespace characters, in order. */
  function Tokens(s: string): (r: seq<string>)
    ensures forall k :: 0 <= k < |r| ==> r[k] != [] && NoSpace(r[k])
    decreases |s|
  {
    if s == [] then []
    else if IsSpace(s[0]) then Tokens(s[1..])
    else
      var n := PrefixRun(s, NotSpace);
      [s[..n]] + Tokens(s[n..])
  }

  /** `s.split()[-1]` */
  function LastToken(s: string): (r: string)
    requires Tokens(s) != []
    ensures r != [] && NoSpace(r)
  {
    Tokens(s)[|Tokens(s)| - 1]
  }

  /** `s.split()` is empty exactly when `s` is blank. */
  lemma {:induction false} TokensEmptyIffBlank(s: string)
    ensures Tokens(s) == [] <==> AllSpace(s)
    decreases |s|
  {
    if s != [] && IsSpace(s[0]) {
      TokensEmptyIffBlank(s[1..]);
      assert AllSpace(s) <==> AllSpace(s[1..]);
    }
  }

  /** A whitespace character always ends a token. */
  lemma {:induction false} TokensAroundSpace(a: string, c: char, b: string)
    requires IsSpace(c)
    ensures Tokens(a + [c] + b) == Tokens(a) + Tokens(b)
    decreases |a|
  {
    if a == [] {
      assert a + [c] + b == [c] + b;
      TokensSpaceStep(c, b);
    } else if IsSpace(a[0]) {
      var a' := a[1..];
      assert a + [c] + b == [a[0]] + (a' + [c] + b);
      assert a == [a[0]] + a';
      TokensSpaceStep(a[0], a' + [c] + b);
      TokensSpaceStep(a[0], a');
      TokensAroundSpace(a', c, b);
    } else {
      var n := PrefixRun(a, NotSpace);
      TokensAroundSpaceRun(a, c, b, n);
      TokensAroundSpace(a[n..], c, b);
      AppendAssoc([a[..n]], Tokens(a[n..]), Tokens(b));
    }
  }

  /** Leading whitespace contributes no token. */
  lemma TokensSpaceStep(c: char, t: string)
    requires IsSpace(c)
    ensures Tokens([c] + t) == Tokens(t)
  {
    assert ([c] + t)[1..] == t;
  }

  /** The first token of `a + [c] + b` is the first token of `a` when `a`
      starts with one. */
  lemma TokensAroundSpaceRun(a: string, c: char, b: string, n: nat)
    requires IsSpace(c) && a != [] && !IsSpace(a[0]) && n == PrefixRun(a, NotSpace)
    ensures 0 < n <= |a|
    ensures Tokens(a + [c] + b) == [a[..n]] + Tokens(a[n..] + [c] + b)
    ensures Tokens(a) == [a[..n]] + Tokens(a[n..])
  {
    var s := a + [c] + b;
    assert s == a + ([c] + b);
    PrefixRunAppend(a, [c] + b, NotSpace);
    assert s[0] == a[0];
    assert s[..n] == a[..n];
    assert s[n..] == a[n..] + [c] + b;
  }

  /** A non-empty word without whitespace is its own single token. */
  lemma TokensOfWord(w: string)
    requires w != [] && NoSpace(w)
    ensures Tokens(w) == [w]
  {
    assert !IsSpace(w[0]);
    var n := PrefixRun(w, NotSpace);
    assert n == |w|;
    assert w[..n] == w;
    assert Tokens(w[n..]) == [];
  }

  /** The token after the last whitespace character is the last token. */
  lemma LastTokenAfterSpace(a: string, c: char, w: string)
    requires IsSpace(c) && w != [] && NoSpace(w)
    ensures Tokens(a + [c] + w) != [] && LastToken(a + [c] + w) == w
  {
    TokensAroundSpace(a, c, w);
    TokensOfWord(w);
  }

  /** The last token is the final non-whitespace run of `s`: only
      whitespace follows it, and it starts the text or follows whitespace. */
  lemma {:induction false} LastTokenIsTrailingRun(s: string) returns (pre: string, post: string)
    requires Tokens(s) != []
    ensures s == pre + LastToken(s) + post
    ensures AllSpace(post)
    ensures pre == [] || IsSpace(pre[|pre| - 1])
    decreases |s|
  {
    if IsSpace(s[0]) {
      var s' := s[1..];
      assert s == [s[0]] + s';
      TokensSpaceStep(s[0], s');
      var p0, q0 := LastTokenIsTrailingRun(s');
      AppendRegroup([s[0]], p0, LastToken(s'), q0);
      pre, post := [s[0]] + p0, q0;
      assert pre[|pre| - 1] == if p0 == [] then s[0] else p0[|p0| - 1];
    } else {
      var n := PrefixRun(s, NotSpace);
      pre, post := LastTokenAfterRun(s, n);
    }
  }

  /** The inductive step of LastTokenIsTrailingRun when `s` starts with a
      token of length `n`. */
  lemma {:induction false} LastTokenAfterRun(s: string, n: nat) returns (pre: string, post: string)
    requires s != [] && !IsSpace(s[0]) && n == PrefixRun(s, NotSpace)
    ensures Tokens(s) != []
    ensures s == pre + LastToken(s) + post
    ensures AllSpace(post)
    ensures pre == [] || IsSpace(pre[|pre| - 1])
    decreases |s|, 0
  {
    var head, tail := s[..n], s[n..];
    assert Tokens(s) == [head] + Tokens(tail);
    assert s == head + tail;
    if Tokens(tail) == [] {
      TokensEmptyIffBlank(tail);
      pre, post := [], tail;
      assert [] + head == head;
    } else {
      var t := LastToken(tail);
      assert LastToken(s) == t;
      var p0, q0 := LastTokenIsTrailingRun(tail);
      assert p0 != [];
      AppendRegroup(head, p0, t, q0);
      pre, post := head + p0, q0;
      assert pre[|pre| - 1] == p0[|p0| - 1];
    }
  }

  // ---------------------------------------------------------------------
  // s.strip() with no argument

  /** `s.lstrip()`: a suffix of `s`, only whitespace was removed, and it
      does not itself start with whitespace. */
  function TrimStart(s: string): (r: string)
    ensures |r| <= |s| && r == s[|s| - |r|..] && AllSpace(s[..|s| - |r|])
    ensures r != [] ==> !IsSpace(r[0])
  {
    if s != [] && IsSpace(s[0]) then TrimStart(s[1..]) else s
  }

  /** `s.rstrip()`: a prefix of `s`, only whitespace was removed, and it
      does not itself end with whitespace. */
  function TrimEnd(s: string): (r: string)
    ensures |r| <= |s| && r == s[..|r|] && AllSpace(s[|r|..])
    ensures r != [] ==> !IsSpace(r[|r| - 1])
  {
    if s != [] && IsSpace(s[|s| - 1]) then
      var r := TrimEnd(s[..|s| - 1]);
      assert s[|r|..] == s[..|s| - 1][|r|..] + [s[|s| - 1]];
      r
    else s
  }

  /** `s.strip()`: empty exactly when `s` is blank. */
  function Strip(s: string): (r: string)
    ensures r == [] <==> AllSpace(s)
    ensures r != [] ==> !IsSpace(r[0]) && !IsSpace(r[|r| - 1])
  {
    var t := TrimStart(s);
    assert s == s[..|s| - |t|] + t;
    TrimEnd(t)
  }
}

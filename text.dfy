/** The string operations the scraper borrows from Python: `str.split` with a
    separator, `str.split()` on whitespace, `str.replace`, and decimal
    rendering of integers in f-strings. */
module Text {
  import opened Wrappers

  /** Python's `sep.join(parts)`. */
  function Join(parts: seq<string>, sep: char): string
  {
    if |parts| == 0 then ""
    else if |parts| == 1 then parts[0]
    else parts[0] + [sep] + Join(parts[1..], sep)
  }

  lemma JoinFront(parts: seq<string>, sep: char)
    requires |parts| >= 2
    ensures Join(parts, sep) == parts[0] + [sep] + Join(parts[1..], sep)
  {
  }

  /** Joining five pieces puts the separator between neighbours. */
  lemma JoinFive(parts: seq<string>, sep: char)
    requires |parts| == 5
    ensures Join(parts, sep) ==
      parts[0] + [sep] + parts[1] + [sep] + parts[2] + [sep] + parts[3] + [sep] + parts[4]
  {
    var t4 := parts[4..];
    var t3 := parts[3..];
    var t2 := parts[2..];
    var t1 := parts[1..];
    assert Join(t4, sep) == parts[4];
    assert t3[1..] == t4;
    JoinFront(t3, sep);
    assert t2[1..] == t3;
    JoinFront(t2, sep);
    assert t1[1..] == t2;
    JoinFront(t1, sep);
    JoinFront(parts, sep);
  }

  /** Python's `s.split(sep)` for a one-character separator: the maximal
      separator-free pieces in order, empty pieces included, so there is one
      more piece than there are separators. */
  function Split(s: string, sep: char): (parts: seq<string>)
    ensures |parts| >= 1
    ensures forall i :: 0 <= i < |parts| ==> sep !in parts[i]
    decreases |s|
  {
    if s == [] then [""]
    else
      var rest := Split(s[1..], sep);
      if s[0] == sep then [""] + rest
      else [[s[0]] + rest[0]] + rest[1..]
  }

  /** There is one more piece than there are separators. */
  lemma {:induction false} SplitCount(s: string, sep: char)
    ensures |Split(s, sep)| == multiset(s)[sep] + 1
    decreases |s|
  {
    if s != [] {
      SplitCount(s[1..], sep);
      SplitCons(s, sep);
      assert s == [s[0]] + s[1..];
      assert multiset(s) == multiset([s[0]]) + multiset(s[1..]);
    }
  }

  lemma SplitCons(s: string, sep: char)
    requires s != []
    ensures Split(s, sep) ==
      if s[0] == sep then [""] + Split(s[1..], sep)
      else [[s[0]] + Split(s[1..], sep)[0]] + Split(s[1..], sep)[1..]
  {
  }

  /** Joining undoes splitting. */
  lemma {:induction false} JoinSplit(s: string, sep: char)
    ensures Join(Split(s, sep), sep) == s
    decreases |s|
  {
    if s != [] {
      JoinSplit(s[1..], sep);
      SplitCons(s, sep);
      if s[0] == sep {
        JoinAfterSeparator(s, Split(s[1..], sep), sep);
      } else {
        JoinAfterChar(s, Split(s[1..], sep), sep);
      }
    }
  }

  lemma JoinAfterSeparator(s: string, rest: seq<string>, sep: char)
    requires s != [] && s[0] == sep && |rest| >= 1
    requires Join(rest, sep) == s[1..]
    ensures Join([""] + rest, sep) == s
  {
    var parts := [""] + rest;
    assert parts[1..] == rest;
    JoinFront(parts, sep);
    assert s == [s[0]] + s[1..];
  }

  lemma JoinAfterChar(s: string, rest: seq<string>, sep: char)
    requires s != [] && |rest| >= 1
    requires Join(rest, sep) == s[1..]
    ensures Join([[s[0]] + rest[0]] + rest[1..], sep) == s
  {
    var parts := [[s[0]] + rest[0]] + rest[1..];
    assert s == [s[0]] + s[1..];
    if |rest| == 1 {
      assert Join(parts, sep) == [s[0]] + rest[0];
    } else {
      assert parts[1..] == rest[1..];
      JoinFront(parts, sep);
      JoinFront(rest, sep);
      assert Join(parts, sep) == [s[0]] + (rest[0] + [sep] + Join(rest[1..], sep));
    }
  }

  lemma SplitPrependChar(c: char, u: string, sep: char)
    requires c != sep
    ensures Split([c] + u, sep) == [[c] + Split(u, sep)[0]] + Split(u, sep)[1..]
  {
    SplitCons([c] + u, sep);
    assert ([c] + u)[1..] == u;
  }

  lemma {:induction false} SplitSeparatorFree(w: string, t: string, sep: char)
    requires sep !in w
    ensures Split(w + t, sep) == [w + Split(t, sep)[0]] + Split(t, sep)[1..]
    decreases |w|
  {
    var p := Split(t, sep);
    if w == [] {
      assert w + t == t;
      assert w + p[0] == p[0];
      assert p == [p[0]] + p[1..];
    } else {
      assert w + t == [w[0]] + (w[1..] + t);
      assert w[0] in w;
      SplitPrependChar(w[0], w[1..] + t, sep);
      SplitSeparatorFree(w[1..], t, sep);
      var q := Split(w[1..] + t, sep);
      assert q[0] == w[1..] + p[0] && q[1..] == p[1..];
      assert w == [w[0]] + w[1..];
      assert [w[0]] + q[0] == w + p[0];
    }
  }

  /** A piece without the separator, the separator, then the rest: the piece
      comes first among the pieces. */
  lemma SplitAfterPiece(w: string, t: string, sep: char)
    requires sep !in w
    ensures Split(w + [sep] + t, sep) == [w] + Split(t, sep)
  {
    SplitCons([sep] + t, sep);
    assert ([sep] + t)[1..] == t;
    SplitSeparatorFree(w, [sep] + t, sep);
    assert w + [sep] + t == w + ([sep] + t);
    assert w + "" == w;
  }

  /** Splitting undoes joining, provided no piece contains the separator. */
  lemma {:induction false} SplitJoin(parts: seq<string>, sep: char)
    requires |parts| >= 1
    requires forall i :: 0 <= i < |parts| ==> sep !in parts[i]
    ensures Split(Join(parts, sep), sep) == parts
    decreases |parts|
  {
    if |parts| == 1 {
      SplitSeparatorFree(parts[0], "", sep);
      assert parts[0] + "" == parts[0];
    } else {
      SplitJoin(parts[1..], sep);
      JoinFront(parts, sep);
      SplitAfterPiece(parts[0], Join(parts[1..], sep), sep);
      assert parts == [parts[0]] + parts[1..];
    }
  }

  /** Python's `s.replace(pat, rep)`: scans from the left and replaces each
      non-overlapping occurrence of `pat`. */
  function Replace(s: string, pat: string, rep: string): (r: string)
    requires pat != []
    ensures (forall i :: 0 <= i < |s| ==> !OccursAt(s, pat, i)) ==> r == s
    decreases |s|
  {
    if |s| < |pat| then s
    else if s[..|pat|] == pat then
      assert OccursAt(s, pat, 0);
      rep + Replace(s[|pat|..], pat, rep)
    else
      OccursAfterFirst(s, pat);
      [s[0]] + Replace(s[1..], pat, rep)
  }

  /** The replacement scans from the left: everything before the first
      occurrence is kept, that occurrence becomes `rep`, and the scan goes on
      right after it, so occurrences never overlap. */
  lemma {:induction false} ReplaceFirst(s: string, pat: string, rep: string, i: nat)
    requires pat != [] && OccursAt(s, pat, i)
    requires forall j :: 0 <= j < i ==> !OccursAt(s, pat, j)
    ensures Replace(s, pat, rep) == s[..i] + rep + Replace(s[i + |pat|..], pat, rep)
    decreases i
  {
    if i == 0 {
      ReplaceAtMatch(s, pat, rep);
      assert s[..0] + rep == rep;
    } else {
      var t, k := s[1..], i - 1;
      ReplaceSkip(s, pat, rep, i);
      FirstInTail(s, pat, i);
      ReplaceFirst(t, pat, rep, k);
      var rest := s[i + |pat|..];
      ReplaceSame(t[k + |pat|..], rest, pat, rep);
      ConsPrefix(s, t, k, i);
      ConsChain(s[0], t[..k], s[..i], rep, Replace(t, pat, rep), Replace(s, pat, rep),
                Replace(t[k + |pat|..], pat, rep), Replace(rest, pat, rep));
    }
  }

  /** An occurrence at the front is replaced and the scan resumes after it. */
  lemma ReplaceAtMatch(s: string, pat: string, rep: string)
    requires pat != [] && OccursAt(s, pat, 0)
    ensures Replace(s, pat, rep) == rep + Replace(s[|pat|..], pat, rep)
  {
    assert s[..|pat|] == pat;
  }

  /** A front character that starts no occurrence is kept, when an occurrence
      follows at `i`. */
  lemma ReplaceSkip(s: string, pat: string, rep: string, i: nat)
    requires pat != [] && 0 < i && OccursAt(s, pat, i) && !OccursAt(s, pat, 0)
    ensures Replace(s, pat, rep) == [s[0]] + Replace(s[1..], pat, rep)
  {
    assert |pat| <= |s|;
  }

  /** The first occurrence at `i > 0` is the tail's first occurrence, at `i - 1`. */
  lemma FirstInTail(s: string, pat: string, i: nat)
    requires 0 < i && OccursAt(s, pat, i)
    requires forall j :: 0 <= j < i ==> !OccursAt(s, pat, j)
    ensures OccursAt(s[1..], pat, i - 1)
    ensures forall j :: 0 <= j < i - 1 ==> !OccursAt(s[1..], pat, j)
  {
    OccursAfterFirst(s, pat);
    forall j | 0 <= j < i - 1
      ensures !OccursAt(s[1..], pat, j)
    {
      assert !OccursAt(s, pat, j + 1);
    }
  }

  lemma ReplaceSame(a: string, b: string, pat: string, rep: string)
    requires pat != [] && a == b
    ensures Replace(a, pat, rep) == Replace(b, pat, rep)
  {
  }

  lemma ConsPrefix(s: string, t: string, k: nat, i: nat)
    requires 0 < i <= |s| && t == s[1..] && i == k + 1
    ensures [s[0]] + t[..k] == s[..i]
  {
  }

  lemma ConsChain(c: char, x: string, y: string, rep: string, rt: string, rs: string, tail0: string, tail: string)
    requires rs == [c] + rt
    requires rt == x + rep + tail0
    requires tail0 == tail
    requires y == [c] + x
    ensures rs == y + rep + tail
  {
    assert [c] + (x + rep + tail) == ([c] + x) + rep + tail;
  }

  /** An occurrence in the tail is an occurrence in the string, one further on. */
  lemma OccursAfterFirst(s: string, pat: string)
    requires s != []
    ensures forall i :: 0 <= i < |s| - 1 ==> (OccursAt(s[1..], pat, i) <==> OccursAt(s, pat, i + 1))
  {
    forall i | 0 <= i < |s| - 1
      ensures OccursAt(s[1..], pat, i) <==> OccursAt(s, pat, i + 1)
    {
      if i + |pat| <= |s| - 1 {
        assert s[1..][i..i + |pat|] == s[i + 1..i + 1 + |pat|];
      }
    }
  }

  /** Replacing one character by another maps the string position by position. */
  lemma {:induction false} ReplaceCharAt(s: string, a: char, b: char)
    ensures |Replace(s, [a], [b])| == |s|
    ensures forall i :: 0 <= i < |s| ==>
      Replace(s, [a], [b])[i] == (if s[i] == a then b else s[i])
    decreases |s|
  {
    if s != [] {
      ReplaceCharAt(s[1..], a, b);
      assert s[..1] == [s[0]];
      assert s[1..] == s[|[a]|..];
    }
  }

  /** `pat` occurs in `s` starting at position `i`. */
  predicate OccursAt(s: string, pat: string, i: nat)
  {
    i + |pat| <= |s| && s[i..i + |pat|] == pat
  }

  /** A string that contains `pat` only as its suffix loses exactly that suffix
      when `pat` is removed. */
  lemma {:induction false} RemoveTrailing(w: string, pat: string)
    requires pat != []
    requires forall i :: 0 <= i < |w| ==> !OccursAt(w + pat, pat, i)
    ensures Replace(w + pat, pat, "") == w
    decreases |w|
  {
    if w == [] {
      assert w + pat == pat;
      assert pat[|pat|..] == [];
    } else {
      var s := w + pat;
      assert !OccursAt(s, pat, 0);
      assert s[..|pat|] == s[0..0 + |pat|];
      assert s[1..] == w[1..] + pat;
      forall i | 0 <= i < |w[1..]|
        ensures !OccursAt(w[1..] + pat, pat, i)
      {
        assert !OccursAt(s, pat, i + 1);
        assert (w[1..] + pat)[i..i + |pat|] == s[i + 1..i + 1 + |pat|];
      }
      RemoveTrailing(w[1..], pat);
      assert [w[0]] + w[1..] == w;
    }
  }

  /** The characters Python's `str.split()` treats as whitespace: the ASCII
      controls tab to carriage return and file to unit separator, the space,
      and the Unicode spaces and line or paragraph separators. */
  predicate IsSpace(c: char)
  {
    || '\t' <= c <= '\r' || '\U{1c}' <= c <= '\U{1f}' || c == ' '
    || c == '\U{85}' || c == '\U{a0}' || c == '\U{1680}' || '\U{2000}' <= c <= '\U{200a}'
    || c == '\U{2028}' || c == '\U{2029}' || c == '\U{202f}' || c == '\U{205f}' || c == '\U{3000}'
  }

  predicate NoSpace(w: string)
  {
    forall c :: c in w ==> !IsSpace(c)
  }

  /** Python's `s.split()`: the maximal runs of non-whitespace, in order. */
  function Words(s: string): (ws: seq<string>)
    ensures forall i :: 0 <= i < |ws| ==> ws[i] != [] && NoSpace(ws[i])
    ensures s != [] && !IsSpace(s[0]) ==> |ws| >= 1 && ws[0][0] == s[0]
    decreases |s|
  {
    if s == [] then []
    else if IsSpace(s[0]) then Words(s[1..])
    else
      var rest := Words(s[1..]);
      if |s| > 1 && !IsSpace(s[1]) then [[s[0]] + rest[0]] + rest[1..]
      else [[s[0]]] + rest
  }

  lemma {:induction false} WordsOfWordThenSpace(w: string, t: string)
    requires w != [] && NoSpace(w)
    requires t == [] || IsSpace(t[0])
    ensures Words(w + t) == [w] + Words(t)
    decreases |w|
  {
    var s := w + t;
    assert s[0] == w[0] && s[1..] == w[1..] + t;
    if |w| == 1 {
      assert s[1..] == t;
      assert [w[0]] == w;
      assert |s| > 1 ==> s[1] == t[0];
    } else {
      assert s[1] == w[1];
      WordsOfWordThenSpace(w[1..], t);
      assert [w[0]] + w[1..] == w;
    }
  }

  /** Whitespace splitting recovers the words of a single-space-separated line. */
  lemma {:induction false} WordsJoin(ws: seq<string>)
    requires |ws| >= 1
    requires forall i :: 0 <= i < |ws| ==> ws[i] != [] && NoSpace(ws[i])
    ensures Words(Join(ws, ' ')) == ws
    decreases |ws|
  {
    if |ws| == 1 {
      WordsOfWordThenSpace(ws[0], "");
      assert ws[0] + "" == ws[0];
    } else {
      var t := Join(ws[1..], ' ');
      WordsJoin(ws[1..]);
      assert ([' '] + t)[1..] == t;
      WordsOfWordThenSpace(ws[0], [' '] + t);
      assert ws[0] + [' '] + t == ws[0] + ([' '] + t);
      assert ws == [ws[0]] + ws[1..];
    }
  }

  predicate IsDigit(c: char)
  {
    '0' <= c <= '9'
  }

  predicate AllDigits(s: string)
  {
    forall c :: c in s ==> IsDigit(c)
  }

  function DigitChar(d: nat): (c: char)
    requires d < 10
    ensures IsDigit(c) && c as int - '0' as int == d
  {
    (d + '0' as int) as char
  }

  /** Decimal rendering of a natural number, as `str(n)` or an f-string gives it. */
  function ShowNat(n: nat): (s: string)
    ensures s != [] && AllDigits(s)
  {
    if n < 10 then [DigitChar(n)] else ShowNat(n / 10) + [DigitChar(n % 10)]
  }

  function DigitsValue(s: string): nat
    requires AllDigits(s)
  {
    if s == [] then 0
    else
      assert s[|s| - 1] in s;
      DigitsValue(s[..|s| - 1]) * 10 + (s[|s| - 1] as int - '0' as int)
  }

  /** Reads a non-empty string of decimal digits back as a number. */
  function ParseNat(s: string): Option<nat>
  {
    if s != [] && AllDigits(s) then Some(DigitsValue(s)) else None
  }

  lemma {:induction false} ParseShowNat(n: nat)
    ensures ParseNat(ShowNat(n)) == Some(n)
  {
    var s := ShowNat(n);
    if n < 10 {
      assert s == [DigitChar(n)];
      assert s[..|s| - 1] == [];
      assert DigitsValue(s) == DigitsValue([]) * 10 + (s[0] as int - '0' as int);
    } else {
      ParseShowNat(n / 10);
      assert s[..|s| - 1] == ShowNat(n / 10);
      assert s[|s| - 1] == DigitChar(n % 10);
    }
  }
}

/**
 * Character and string operations of Python's `str` and `re` that the pipeline
 * relies on, restricted to ASCII: whitespace classes, lower-casing, substring
 * search, `strip`, `re.sub(r'\s+', ' ', ...)`, `split`/`join`, single-character
 * `replace`, `str(int)` and string comparison.
 */
module Text {
  import opened Wrappers

  /** ASCII characters for which `str.isspace()` holds; on ASCII text the
      regular-expression class `\s` matches exactly these. */
  predicate IsSpace(c: char) {
    || c == ' ' || c == '\t' || c == '\n' || c == '\r'
    || c == '\U{B}' || c == '\U{C}' || ('\U{1C}' <= c <= '\U{1F}')
  }

  predicate IsDigit(c: char) {
    '0' <= c <= '9'
  }

  function LowerChar(c: char): char {
    if 'A' <= c <= 'Z' then (c as int - 'A' as int + 'a' as int) as char else c
  }

  /** `str.lower()` on ASCII text. */
  function Lower(s: string): (r: string)
    ensures |r| == |s|
    ensures forall i :: 0 <= i < |s| ==> r[i] == LowerChar(s[i])
  {
    seq(|s|, i requires 0 <= i < |s| => LowerChar(s[i]))
  }

  predicate StartsWith(s: string, prefix: string) {
    |prefix| <= |s| && s[..|prefix|] == prefix
  }

  predicate OccursAt(s: string, sub: string, i: int) {
    0 <= i && i + |sub| <= |s| && s[i..i + |sub|] == sub
  }

  /** `s.find(sub, i)`: the leftmost occurrence of `sub` at or after `i`. */
  function FindFrom(s: string, sub: string, i: nat): (r: Option<nat>)
    requires i <= |s|
    ensures r.Some? ==> i <= r.value && OccursAt(s, sub, r.value)
    ensures r.Some? ==> forall j :: i <= j < r.value ==> !OccursAt(s, sub, j)
    ensures r.None? ==> forall j :: i <= j ==> !OccursAt(s, sub, j)
    decreases |s| - i
  {
    if OccursAt(s, sub, i) then Some(i)
    else if i == |s| then None
    else FindFrom(s, sub, i + 1)
  }

  /** `s.find(sub)`, with None for -1. */
  function Find(s: string, sub: string): (r: Option<nat>)
    ensures r.Some? ==> OccursAt(s, sub, r.value)
    ensures r.Some? ==> forall j :: 0 <= j < r.value ==> !OccursAt(s, sub, j)
    ensures r.None? ==> forall j :: !OccursAt(s, sub, j)
  {
    FindFrom(s, sub, 0)
  }

  lemma LowerAppend(a: string, b: string)
    ensures Lower(a + b) == Lower(a) + Lower(b)
  {
  }

  lemma LowerCons(s: string)
    requires |s| > 0
    ensures Lower(s) == [LowerChar(s[0])] + Lower(s[1..])
  {
  }

  /** Python's `sub in s`. */
  predicate Contains(s: string, sub: string) {
    Find(s, sub).Some?
  }

  /** Length of the run of whitespace that starts `s`. */
  function SpaceRun(s: string): (n: nat)
    ensures n <= |s|
    ensures forall j :: 0 <= j < n ==> IsSpace(s[j])
    ensures n < |s| ==> !IsSpace(s[n])
  {
    if |s| > 0 && IsSpace(s[0]) then 1 + SpaceRun(s[1..]) else 0
  }

  /** `s.rstrip()`. */
  function RStrip(s: string): (r: string)
    ensures |r| <= |s| && r == s[..|r|]
    ensures forall j :: |r| <= j < |s| ==> IsSpace(s[j])
    ensures |r| > 0 ==> !IsSpace(r[|r| - 1])
  {
    if |s| > 0 && IsSpace(s[|s| - 1]) then RStrip(s[..|s| - 1]) else s
  }

  /** `s.strip()`: the text between the leading and the trailing whitespace;
      only whitespace is lost. */
  function Strip(s: string): (r: string)
    ensures |r| > 0 ==> !IsSpace(r[0]) && !IsSpace(r[|r| - 1])
    ensures SpaceRun(s) + |r| <= |s| && r == s[SpaceRun(s)..SpaceRun(s) + |r|]
    ensures forall j :: SpaceRun(s) + |r| <= j < |s| ==> IsSpace(s[j])
    ensures NonSpace(r) == NonSpace(s)
  {
    var n := SpaceRun(s);
    var t := s[n..];
    var r := RStrip(t);
    assert forall j :: n + |r| <= j < |s| ==> IsSpace(s[j]) by {
      forall j | n + |r| <= j < |s| ensures IsSpace(s[j]) {
        assert s[j] == t[j - n];
      }
    }
    assert r == t[..|r|] == s[n..n + |r|];
    assert |r| > 0 ==> r[0] == s[n];
    NonSpaceDropsRun(s, n);
    NonSpaceDropsTail(t, |r|);
    r
  }

  /** Whitespace only as single spaces: the shape `re.sub(r'\s+', ' ', s)` leaves. */
  ghost predicate Collapsed(t: string) {
    && (forall i :: 0 <= i < |t| && IsSpace(t[i]) ==> t[i] == ' ')
    && (forall i :: 0 < i < |t| && IsSpace(t[i]) ==> !IsSpace(t[i - 1]))
  }

  /** The characters of `s` that are not whitespace, in order. */
  function NonSpace(s: string): string {
    if |s| == 0 then ""
    else (if IsSpace(s[0]) then "" else [s[0]]) + NonSpace(s[1..])
  }

  lemma {:induction false} NonSpaceDropsRun(s: string, n: nat)
    requires n <= |s|
    requires forall j :: 0 <= j < n ==> IsSpace(s[j])
    ensures NonSpace(s[n..]) == NonSpace(s)
    decreases n
  {
    if n > 0 {
      NonSpaceDropsRun(s[1..], n - 1);
      assert s[1..][n - 1..] == s[n..];
    }
  }

  lemma {:induction false} NonSpaceDropsTail(s: string, n: nat)
    requires n <= |s|
    requires forall j :: n <= j < |s| ==> IsSpace(s[j])
    ensures NonSpace(s[..n]) == NonSpace(s)
    decreases |s|
  {
    if n < |s| {
      NonSpaceDropsTail(s[1..], if n == 0 then 0 else n - 1);
      if n == 0 {
        assert s[1..][..0] == s[..n];
      } else {
        assert s[1..][..n - 1] == s[..n][1..];
        assert NonSpace(s[..n]) == (if IsSpace(s[0]) then "" else [s[0]]) + NonSpace(s[..n][1..]);
      }
    } else {
      assert s[..n] == s;
    }
  }

  /** `s.split()` with no argument: the maximal runs of non-whitespace, in
      order. Joined without separator they give back every non-whitespace
      character. */
  function Words(s: string): (r: seq<string>)
    ensures forall i :: 0 <= i < |r| ==> |r[i]| > 0 && forall j :: 0 <= j < |r[i]| ==> !IsSpace(r[i][j])
    ensures |s| > 0 && !IsSpace(s[0]) ==> |r| > 0 && r[0][0] == s[0]
    decreases |s|
  {
    if |s| == 0 then []
    else if IsSpace(s[0]) then Words(s[1..])
    else
      var rest := Words(s[1..]);
      if |s| > 1 && !IsSpace(s[1]) then [[s[0]] + rest[0]] + rest[1..] else [[s[0]]] + rest
  }

  /** The words hold every non-whitespace character, in order. */
  lemma {:induction false} WordsNonSpace(s: string)
    ensures Join(Words(s), "") == NonSpace(s)
    decreases |s|
  {
    if |s| > 0 {
      WordsNonSpace(s[1..]);
      if !IsSpace(s[0]) {
        if |s| > 1 && !IsSpace(s[1]) {
          JoinHead(s[0], Words(s[1..]), "");
        } else {
          JoinCons([s[0]], Words(s[1..]), "");
        }
      }
    }
  }

  /** Whitespace in front separates no words. */
  lemma WordsAfterSpace(c: char, x: string)
    requires IsSpace(c)
    ensures Words([c] + x) == Words(x)
  {
    assert ([c] + x)[1..] == x;
  }

  /** A character in front extends or precedes the first word in the same way
      for two texts that have the same words and begin alike. */
  lemma WordsAfterLetter(c: char, x: string, y: string)
    requires !IsSpace(c) && Words(x) == Words(y)
    requires |x| == 0 <==> |y| == 0
    requires |x| > 0 ==> (IsSpace(x[0]) <==> IsSpace(y[0]))
    ensures Words([c] + x) == Words([c] + y)
  {
    assert ([c] + x)[1..] == x;
    assert ([c] + y)[1..] == y;
  }

  lemma JoinCons(p: string, ps: seq<string>, sep: string)
    ensures Join([p] + ps, sep) == if |ps| == 0 then p else p + sep + Join(ps, sep)
  {
    assert ([p] + ps)[1..] == ps;
  }

  /** Putting a character in front of the first part puts it in front of the
      joined text. */
  lemma JoinHead(c: char, ps: seq<string>, sep: string)
    requires |ps| > 0
    ensures Join([[c] + ps[0]] + ps[1..], sep) == [c] + Join(ps, sep)
  {
    JoinCons([c] + ps[0], ps[1..], sep);
    JoinCons(ps[0], ps[1..], sep);
    assert ps == [ps[0]] + ps[1..];
  }

  /** Leading whitespace separates no words. */
  lemma {:induction false} WordsDropSpaces(s: string, n: nat)
    requires n <= |s|
    requires forall j :: 0 <= j < n ==> IsSpace(s[j])
    ensures Words(s[n..]) == Words(s)
    decreases n
  {
    if n > 0 {
      WordsDropSpaces(s[1..], n - 1);
      assert s[1..][n - 1..] == s[n..];
    }
  }

  /** Trailing whitespace separates no words. */
  lemma {:induction false} WordsDropTail(a: string, b: string)
    requires forall j :: 0 <= j < |b| ==> IsSpace(b[j])
    ensures Words(a + b) == Words(a)
    decreases |a|
  {
    if |a| == 0 {
      assert a + b == b;
      WordsDropSpaces(b, |b|);
      assert b[|b|..] == [];
    } else {
      WordsDropTail(a[1..], b);
      assert (a + b)[1..] == a[1..] + b;
      assert |a| > 1 ==> (a + b)[1] == a[1];
      assert |a| == 1 && |b| > 0 ==> (a + b)[1] == b[0];
    }
  }

  /** Stripping the ends keeps the words. */
  lemma WordsStrip(s: string)
    ensures Words(Strip(s)) == Words(s)
  {
    var n := SpaceRun(s);
    var r := Strip(s);
    var t := s[n..];
    var tail := t[|r|..];
    WordsDropSpaces(s, n);
    assert t == r + tail;
    assert forall j :: 0 <= j < |tail| ==> IsSpace(tail[j]) by {
      forall j | 0 <= j < |tail| ensures IsSpace(tail[j]) {
        assert tail[j] == s[n + |r| + j];
      }
    }
    WordsDropTail(r, tail);
  }

  /** `r` is `s` with every maximal whitespace run replaced by one space: it is
      collapsed, has the words of `s` and its non-space characters, and begins
      and ends with whitespace exactly when `s` does. */
  ghost predicate CollapsedFrom(r: string, s: string) {
    CollapsedShape(r, s) && Words(r) == Words(s) && NonSpace(r) == NonSpace(s)
  }

  /** The layout part of CollapsedFrom. */
  ghost predicate CollapsedShape(r: string, s: string) {
    && Collapsed(r)
    && |r| <= |s|
    && (|s| > 0 ==> |r| > 0 && r[0] == (if IsSpace(s[0]) then ' ' else s[0]))
    && (|s| > 0 ==> (IsSpace(r[|r| - 1]) <==> IsSpace(s[|s| - 1])))
    && (|s| == 0 ==> r == "")
  }

  /** `re.sub(r'\s+', ' ', s)`. */
  function CollapseSpaces(s: string): (r: string)
    ensures CollapsedFrom(r, s)
    decreases |s|
  {
    if |s| == 0 then ""
    else if IsSpace(s[0]) then
      var x := CollapseSpaces(s[SpaceRun(s)..]);
      CollapseSpaceCase(s, x);
      " " + x
    else
      var x := CollapseSpaces(s[1..]);
      CollapseLetterCase(s, x);
      [s[0]] + x
  }

  lemma CollapseSpaceCase(s: string, x: string)
    requires |s| > 0 && IsSpace(s[0]) && CollapsedFrom(x, s[SpaceRun(s)..])
    ensures CollapsedFrom(" " + x, s)
  {
    CollapseSpaceShape(s, x);
    CollapseSpaceText(s, x);
  }

  lemma CollapseSpaceShape(s: string, x: string)
    requires |s| > 0 && IsSpace(s[0]) && CollapsedShape(x, s[SpaceRun(s)..])
    ensures CollapsedShape(" " + x, s)
  {
    var n := SpaceRun(s);
    var r := " " + x;
    assert n > 0;
    assert Collapsed(r) by {
      assert |x| > 0 ==> s[n..][0] == s[n] && !IsSpace(x[0]);
      CollapsedCons(x);
    }
    assert IsSpace(r[|r| - 1]) <==> IsSpace(s[|s| - 1]) by {
      if n == |s| {
        assert IsSpace(s[|s| - 1]);
      } else {
        assert r[|r| - 1] == x[|x| - 1] && s[n..][|s| - n - 1] == s[|s| - 1];
      }
    }
  }

  lemma CollapseSpaceText(s: string, x: string)
    requires |s| > 0 && IsSpace(s[0])
    requires Words(x) == Words(s[SpaceRun(s)..]) && NonSpace(x) == NonSpace(s[SpaceRun(s)..])
    ensures Words(" " + x) == Words(s) && NonSpace(" " + x) == NonSpace(s)
  {
    var n := SpaceRun(s);
    NonSpaceDropsRun(s, n);
    WordsDropSpaces(s, n);
    WordsAfterSpace(' ', x);
    assert (" " + x)[1..] == x;
  }

  /** A space in front of collapsed text that does not begin with whitespace
      keeps it collapsed. */
  lemma CollapsedCons(x: string)
    requires Collapsed(x) && (|x| > 0 ==> !IsSpace(x[0]))
    ensures Collapsed(" " + x)
  {
    var r := " " + x;
    assert forall i :: 0 < i < |r| ==> r[i] == x[i - 1];
  }

  lemma CollapseLetterCase(s: string, x: string)
    requires |s| > 0 && !IsSpace(s[0]) && CollapsedFrom(x, s[1..])
    ensures CollapsedFrom([s[0]] + x, s)
  {
    var r := [s[0]] + x;
    WordsAfterLetter(s[0], x, s[1..]);
    assert s == [s[0]] + s[1..];
    assert r[1..] == x;
  }

  /** A collapsed string is a fixed point of CollapseSpaces. */
  lemma {:induction false} CollapseFixed(t: string)
    requires Collapsed(t)
    ensures CollapseSpaces(t) == t
    decreases |t|
  {
    if |t| > 0 {
      assert Collapsed(t[1..]);
      CollapseFixed(t[1..]);
      if IsSpace(t[0]) {
        assert SpaceRun(t) == 1;
      }
    }
  }

  lemma CollapsedSlice(t: string, a: nat, b: nat)
    requires a <= b <= |t| && Collapsed(t)
    ensures Collapsed(t[a..b])
  {
    var u := t[a..b];
    assert forall i :: 0 <= i < |u| ==> u[i] == t[a + i];
  }

  /** No whitespace at either end, and whitespace only as single spaces. */
  ghost predicate Normalized(t: string) {
    && Collapsed(t)
    && (|t| > 0 ==> !IsSpace(t[0]) && !IsSpace(t[|t| - 1]))
  }

  /** Normalised text is its words joined by single spaces. */
  lemma {:induction false} NormalizedJoin(t: string)
    requires Normalized(t)
    ensures Join(Words(t), " ") == t
    decreases |t|
  {
    if |t| == 1 {
      assert t[1..] == [];
      assert Words(t) == [[t[0]]];
    } else if |t| > 1 {
      var t1 := t[1..];
      if !IsSpace(t[1]) {
        assert Join(Words(t1), " ") == t1 by {
          CollapsedSlice(t, 1, |t|);
          NormalizedJoin(t1);
        }
        assert Join(Words(t), " ") == [t[0]] + Join(Words(t1), " ") by {
          JoinHead(t[0], Words(t1), " ");
        }
        assert t == [t[0]] + t1;
      } else {
        var t2 := t[2..];
        assert Words(t) == [[t[0]]] + Words(t2) by {
          assert t1[1..] == t2;
        }
        assert Join(Words(t2), " ") == t2 by {
          CollapsedSlice(t, 2, |t|);
          NormalizedJoin(t2);
        }
        assert Join(Words(t), " ") == [t[0]] + " " + Join(Words(t2), " ") by {
          JoinCons([t[0]], Words(t2), " ");
        }
        assert t == [t[0]] + " " + t2;
      }
    }
  }

  /** Collapsing whitespace runs and stripping the ends is Python's
      `' '.join(s.split())`. */
  lemma StripCollapse(s: string)
    ensures Normalized(Strip(CollapseSpaces(s)))
    ensures Strip(CollapseSpaces(s)) == Join(Words(s), " ")
  {
    var c := CollapseSpaces(s);
    StripNormalizes(c);
    WordsStrip(c);
    NormalizedJoin(Strip(c));
  }

  /** Stripping collapsed text normalises it. */
  lemma StripNormalizes(c: string)
    requires Collapsed(c)
    ensures Normalized(Strip(c))
  {
    CollapsedSlice(c, SpaceRun(c), SpaceRun(c) + |Strip(c)|);
  }

  /** `s.replace(c, rep)` for a one-character pattern. */
  function ReplaceChar(s: string, c: char, rep: string): (r: string)
    ensures c !in s ==> r == s
    ensures c !in rep ==> c !in r
    ensures forall d :: d in r ==> (d in s && d != c) || d in rep
  {
    if |s| == 0 then ""
    else (if s[0] == c then rep else [s[0]]) + ReplaceChar(s[1..], c, rep)
  }

  /** Replacement works on each part of a concatenation separately. */
  lemma {:induction false} ReplaceCharAppend(a: string, b: string, c: char, rep: string)
    ensures ReplaceChar(a + b, c, rep) == ReplaceChar(a, c, rep) + ReplaceChar(b, c, rep)
    decreases |a|
  {
    if |a| > 0 {
      ReplaceCharAppend(a[1..], b, c, rep);
      assert (a + b)[0] == a[0] && (a + b)[1..] == a[1..] + b;
    } else {
      assert a + b == b;
    }
  }

  /** Replacing a character by one character is a pointwise substitution. */
  lemma {:induction false} ReplaceCharPointwise(s: string, c: char, d: char)
    ensures |ReplaceChar(s, c, [d])| == |s|
    ensures forall i :: 0 <= i < |s| ==> ReplaceChar(s, c, [d])[i] == if s[i] == c then d else s[i]
    decreases |s|
  {
    if |s| > 0 {
      ReplaceCharPointwise(s[1..], c, d);
    }
  }

  /** An occurrence in `rest` is an occurrence in `e + rest`, shifted by `|e|`. */
  lemma OccursShift(e: string, rest: string, w: string, j: nat)
    ensures OccursAt(rest, w, j) ==> OccursAt(e + rest, w, j + |e|)
  {
    if OccursAt(rest, w, j) {
      assert (e + rest)[j + |e|..j + |e| + |w|] == rest[j..j + |w|];
    }
  }

  lemma ContainsPiece(a: string, sub: string, b: string)
    ensures Contains(a + sub + b, sub)
  {
    var s := a + sub + b;
    assert s[|a|..|a| + |sub|] == sub;
    assert OccursAt(s, sub, |a|);
  }

  /** The index of the first `c` in `s`, or `|s|` when there is none. */
  function IndexOf(s: string, c: char): (q: nat)
    ensures q <= |s|
    ensures forall j :: 0 <= j < q ==> s[j] != c
    ensures q < |s| ==> s[q] == c
  {
    if |s| == 0 || s[0] == c then 0 else 1 + IndexOf(s[1..], c)
  }

  /** The first piece of a split at one character is the text before its first
      occurrence. */
  lemma FirstPieceCut(s: string, c: char)
    ensures Split(s, [c])[0] == s[..IndexOf(s, c)]
  {
    var q := IndexOf(s, c);
    if q < |s| {
      assert s[q..q + 1] == [c];
      assert OccursAt(s, [c], q);
      var i := Find(s, [c]).value;
      assert s[i..i + 1][0] == s[i];
    } else {
      forall j ensures !OccursAt(s, [c], j) {
        if 0 <= j < |s| {
          assert s[j..j + 1][0] == s[j];
        }
      }
      assert s[..q] == s;
    }
  }

  /** `s.split(sep)` for a non-empty separator. */
  function Split(s: string, sep: string): (r: seq<string>)
    requires |sep| > 0
    ensures |r| > 0
    ensures forall i :: 0 <= i < |r| ==> !Contains(r[i], sep)
    decreases |s|
  {
    match Find(s, sep)
    case None => [s]
    case Some(i) =>
      var head := s[..i];
      assert forall j :: OccursAt(head, sep, j) ==> OccursAt(s, sep, j);
      [head] + Split(s[i + |sep|..], sep)
  }

  /** `sep.join(parts)`. */
  function Join(parts: seq<string>, sep: string): string {
    if |parts| == 0 then ""
    else if |parts| == 1 then parts[0]
    else parts[0] + sep + Join(parts[1..], sep)
  }

  /** Splitting and joining again with the same separator gives back the text. */
  lemma {:induction false} JoinSplit(s: string, sep: string)
    requires |sep| > 0
    ensures Join(Split(s, sep), sep) == s
    decreases |s|
  {
    match Find(s, sep)
    case None =>
    case Some(i) =>
      var rest := s[i + |sep|..];
      JoinSplit(rest, sep);
      assert Split(s, sep) == [s[..i]] + Split(rest, sep);
      assert s == s[..i] + sep + rest;
  }

  /** Joining a non-empty prefix of the parts gives a prefix of the joined text. */
  lemma {:induction false} JoinPrefix(parts: seq<string>, k: nat, sep: string)
    requires 0 < k <= |parts|
    ensures StartsWith(Join(parts, sep), Join(parts[..k], sep))
    decreases k
  {
    if k > 1 {
      JoinPrefix(parts[1..], k - 1, sep);
      assert parts[..k][1..] == parts[1..][..k - 1];
    } else {
      assert parts[..k] == [parts[0]];
    }
  }

  /** The first piece of a split keeps every character before the first separator. */
  lemma FirstPieceKeeps(s: string, sep: string, q: nat)
    requires |sep| > 0 && q <= |s|
    requires forall j :: 0 <= j < q ==> !OccursAt(s, sep, j)
    ensures q <= |Split(s, sep)[0]| && StartsWith(s, Split(s, sep)[0])
  {
  }

  function DigitChar(d: nat): char
    requires d < 10
  {
    ('0' as int + d) as char
  }

  /** `str(n)` for a non-negative integer. */
  function NatToString(n: nat): (r: string)
    ensures |r| > 0
    ensures forall i :: 0 <= i < |r| ==> IsDigit(r[i])
  {
    if n < 10 then [DigitChar(n)] else NatToString(n / 10) + [DigitChar(n % 10)]
  }

  /** Python's `a <= b` on strings: lexicographic by code point. */
  predicate LexLe(a: string, b: string) {
    || |a| == 0
    || (&& |b| > 0
        && (a[0] < b[0] || (a[0] == b[0] && LexLe(a[1..], b[1..]))))
  }

  lemma {:induction false} LexLeTotal(a: string, b: string)
    ensures LexLe(a, b) || LexLe(b, a)
    decreases |a|
  {
    if |a| > 0 && |b| > 0 && a[0] == b[0] {
      LexLeTotal(a[1..], b[1..]);
    }
  }

  lemma {:induction false} LexLeAntisymmetric(a: string, b: string)
    requires LexLe(a, b) && LexLe(b, a)
    ensures a == b
    decreases |a|
  {
    if |a| > 0 {
      LexLeAntisymmetric(a[1..], b[1..]);
      assert a == [a[0]] + a[1..] && b == [b[0]] + b[1..];
    }
  }

  lemma {:induction false} LexLeTransitive(a: string, b: string, c: string)
    requires LexLe(a, b) && LexLe(b, c)
    ensures LexLe(a, c)
    decreases |a|
  {
    if |a| > 0 && a[0] == b[0] && b[0] == c[0] {
      LexLeTransitive(a[1..], b[1..], c[1..]);
    }
  }
}

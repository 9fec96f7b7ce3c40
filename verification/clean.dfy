/**
 * `WikipediaScraper.clean_event_text`: removes `[12]`-style citation markers
 * and `[edit]` links, collapses whitespace runs to one space, turns line
 * breaks into spaces and strips the ends.
 */
module Clean {
  import opened Text

  /** Length of the run of ASCII digits that starts `s`. */
  function DigitRun(s: string): (n: nat)
    ensures n <= |s|
    ensures forall j :: 0 <= j < n ==> IsDigit(s[j])
    ensures n < |s| ==> !IsDigit(s[n])
  {
    if |s| > 0 && IsDigit(s[0]) then 1 + DigitRun(s[1..]) else 0
  }

  /** The first `k` characters of `s` are `[`, one or more digits, `]`. */
  predicate CitationAt(s: string, k: int) {
    && 3 <= k <= |s| && s[0] == '[' && s[k - 1] == ']'
    && forall j :: 1 <= j < k - 1 ==> IsDigit(s[j])
  }

  /** Length of the match of the pattern `\[\d+\]` at the start of `s`, or 0
      when the pattern does not match there. */
  function CitationLength(s: string): (n: nat)
    ensures n > 0 ==> CitationAt(s, n)
    ensures n == 0 ==> forall k :: !CitationAt(s, k)
  {
    if |s| > 0 && s[0] == '[' then
      var d := DigitRun(s[1..]);
      if d > 0 && 1 + d < |s| && s[1 + d] == ']' then d + 2 else 0
    else 0
  }

  /** `re.sub(r'\[\d+\]', '', s)`: matches are removed left to right without overlap. */
  function RemoveCitations(s: string): (r: string)
    ensures '[' !in s ==> r == s
    ensures |r| <= |s|
    decreases |s|
  {
    if |s| == 0 then ""
    else if CitationLength(s) > 0 then RemoveCitations(s[CitationLength(s)..])
    else [s[0]] + RemoveCitations(s[1..])
  }

  const EditMark: string := "[edit]"

  /** `re.sub(r'\[edit\]', '', s)`. */
  function RemoveEditMarks(s: string): (r: string)
    ensures '[' !in s ==> r == s
    ensures |r| <= |s|
    decreases |s|
  {
    if |s| == 0 then ""
    else if StartsWith(s, EditMark) then
      assert s[0] == s[..|EditMark|][0] == '[';
      RemoveEditMarks(s[|EditMark|..])
    else [s[0]] + RemoveEditMarks(s[1..])
  }

  /** Text before the first `[` is kept as it is. */
  lemma {:induction false} RemoveCitationsKeepsPrefix(a: string, b: string)
    requires '[' !in a
    ensures RemoveCitations(a + b) == a + RemoveCitations(b)
    decreases |a|
  {
    if |a| > 0 {
      var s := a + b;
      assert s[0] == a[0] != '[' && s[1..] == a[1..] + b;
      assert RemoveCitations(s) == [a[0]] + RemoveCitations(a[1..] + b) by {
        assert CitationLength(s) == 0;
      }
      assert RemoveCitations(a[1..] + b) == a[1..] + RemoveCitations(b) by {
        assert '[' !in a[1..];
        RemoveCitationsKeepsPrefix(a[1..], b);
      }
      assert [a[0]] + (a[1..] + RemoveCitations(b)) == a + RemoveCitations(b) by {
        assert a == [a[0]] + a[1..];
      }
    } else {
      assert a + b == b;
    }
  }

  /** A whole `[digits]` marker is the match at its start. */
  lemma CitationLengthOf(m: string, b: string)
    requires CitationAt(m, |m|)
    ensures CitationLength(m + b) == |m|
  {
    var t := (m + b)[1..];
    assert forall j :: 0 <= j < |m| - 2 ==> IsDigit(t[j]) by {
      forall j | 0 <= j < |m| - 2 ensures IsDigit(t[j]) {
        assert t[j] == m[j + 1];
      }
    }
    assert t[|m| - 2] == ']';
    assert DigitRun(t) == |m| - 2;
  }

  /** A `[digits]` marker after `[`-free text is dropped, and removal goes on
      after it. */
  lemma RemoveCitationsDropsMarker(a: string, m: string, b: string)
    requires '[' !in a && CitationAt(m, |m|)
    ensures RemoveCitations(a + m + b) == a + RemoveCitations(b)
  {
    RemoveCitationsKeepsPrefix(a, m + b);
    CitationLengthOf(m, b);
    assert (m + b)[|m|..] == b;
    assert a + m + b == a + (m + b);
  }

  /** A `[` that starts no marker is kept, and removal goes on after it. */
  lemma RemoveCitationsKeepsBracket(a: string, b: string)
    requires '[' !in a && forall k :: !CitationAt("[" + b, k)
    ensures RemoveCitations(a + "[" + b) == a + "[" + RemoveCitations(b)
  {
    RemoveCitationsKeepsPrefix(a, "[" + b);
    assert ("[" + b)[1..] == b;
    assert a + "[" + b == a + ("[" + b);
  }

  lemma {:induction false} RemoveEditMarksKeepsPrefix(a: string, b: string)
    requires '[' !in a
    ensures RemoveEditMarks(a + b) == a + RemoveEditMarks(b)
    decreases |a|
  {
    if |a| > 0 {
      var s := a + b;
      assert s[0] == a[0] != '[' && s[1..] == a[1..] + b;
      assert RemoveEditMarks(s) == [a[0]] + RemoveEditMarks(a[1..] + b) by {
        assert !StartsWith(s, EditMark) by {
          if |EditMark| <= |s| {
            assert s[..|EditMark|][0] == a[0];
          }
        }
      }
      assert RemoveEditMarks(a[1..] + b) == a[1..] + RemoveEditMarks(b) by {
        assert '[' !in a[1..];
        RemoveEditMarksKeepsPrefix(a[1..], b);
      }
      assert [a[0]] + (a[1..] + RemoveEditMarks(b)) == a + RemoveEditMarks(b) by {
        assert a == [a[0]] + a[1..];
      }
    } else {
      assert a + b == b;
    }
  }

  /** An `[edit]` mark after `[`-free text is dropped, and removal goes on
      after it. */
  lemma RemoveEditMarksDropsMark(a: string, b: string)
    requires '[' !in a
    ensures RemoveEditMarks(a + EditMark + b) == a + RemoveEditMarks(b)
  {
    RemoveEditMarksKeepsPrefix(a, EditMark + b);
    assert (EditMark + b)[..|EditMark|] == EditMark;
    assert (EditMark + b)[|EditMark|..] == b;
    assert a + EditMark + b == a + (EditMark + b);
  }

  /** A `[` that starts no `[edit]` is kept, and removal goes on after it. */
  lemma RemoveEditMarksKeepsBracket(a: string, b: string)
    requires '[' !in a && !StartsWith("[" + b, EditMark)
    ensures RemoveEditMarks(a + "[" + b) == a + "[" + RemoveEditMarks(b)
  {
    RemoveEditMarksKeepsPrefix(a, "[" + b);
    assert ("[" + b)[1..] == b;
    assert a + "[" + b == a + ("[" + b);
  }

  /** The whitespace half of `clean_event_text`: collapse runs, replace line
      breaks, strip the ends. The result is the words of `t` joined by single
      spaces, which is what `' '.join(t.split())` gives. */
  function Tidy(t: string): (r: string)
    ensures Normalized(r)
    ensures r == Join(Words(t), " ")
    ensures NonSpace(r) == NonSpace(t)
  {
    var collapsed := CollapseSpaces(t);
    assert '\n' !in collapsed by {
      forall i | 0 <= i < |collapsed| ensures collapsed[i] != '\n' {
        if collapsed[i] == '\n' {
          assert IsSpace(collapsed[i]);
        }
      }
    }
    var joined := ReplaceChar(collapsed, '\n', " ");
    StripCollapse(t);
    Strip(joined)
  }

  lemma TidyFixesNormalized(t: string)
    requires Normalized(t)
    ensures Tidy(t) == t
  {
    CollapseFixed(t);
    assert '\n' !in t by {
      forall i | 0 <= i < |t| ensures t[i] != '\n' {
        if t[i] == '\n' {
          assert IsSpace(t[i]);
        }
      }
    }
    assert SpaceRun(t) == 0;
    assert t[0..|t|] == t;
  }

  /** `clean_event_text`. The quote replacements of the source are left out
      (see the README). */
  function CleanEventText(text: string): (r: string)
    ensures |r| > 0 ==> !IsSpace(r[0]) && !IsSpace(r[|r| - 1])
    ensures '\n' !in r
    ensures forall i :: 0 < i < |r| && IsSpace(r[i]) ==> !IsSpace(r[i - 1])
    ensures forall i :: 0 <= i < |r| && IsSpace(r[i]) ==> r[i] == ' '
    ensures NonSpace(r) == NonSpace(RemoveEditMarks(RemoveCitations(text)))
    ensures r == Join(Words(RemoveEditMarks(RemoveCitations(text))), " ")
  {
    var r := Tidy(RemoveEditMarks(RemoveCitations(text)));
    assert '\n' !in r by {
      forall i | 0 <= i < |r| ensures r[i] != '\n' {
        if r[i] == '\n' {
          assert IsSpace(r[i]);
        }
      }
    }
    r
  }

  /** Cleaning leaves normalised text without `[` unchanged. */
  lemma CleanFixesNormalized(t: string)
    requires '[' !in t && Normalized(t)
    ensures CleanEventText(t) == t
  {
    TidyFixesNormalized(t);
  }

  /** Cleaning twice is cleaning once whenever the first result has no `[`. */
  lemma CleanIdempotentWithoutBrackets(text: string)
    requires '[' !in CleanEventText(text)
    ensures CleanEventText(CleanEventText(text)) == CleanEventText(text)
  {
    CleanFixesNormalized(CleanEventText(text));
  }

  lemma RemoveCitationsExample()
    ensures RemoveCitations("[[1]2]") == "[2]"
  {
    var s := "[[1]2]";
    RemoveCitationsInner();
    assert s[1..] == "[1]2]";
    assert DigitRun(s[1..]) == 0;
    assert RemoveCitations(s) == [s[0]] + RemoveCitations(s[1..]);
  }

  lemma RemoveCitationsInner()
    ensures RemoveCitations("[1]2]") == "2]"
  {
    RemoveCitationsTail();
    assert CitationAt("[1]2]", 3);
    assert "[1]2]"[3..] == "2]";
  }

  lemma RemoveCitationsTail()
    ensures RemoveCitations("2]") == "2]"
  {
    assert RemoveCitations("]") == "]";
    assert "2]"[1..] == "]";
  }

  lemma RemoveCitationsMarker()
    ensures RemoveCitations("[2]") == ""
  {
    assert CitationAt("[2]", 3);
  }

  lemma RemoveEditMarksExample()
    ensures RemoveEditMarks("[2]") == "[2]"
  {
    assert !StartsWith("[2]", EditMark);
    assert "[2]"[1..] == "2]" && "2]"[1..] == "]" && "]"[1..] == "";
  }

  lemma TidyExample()
    ensures Tidy("[2]") == "[2]"
  {
    assert Normalized("[2]");
    TidyFixesNormalized("[2]");
  }

  lemma CleanFirstPass()
    ensures CleanEventText("[[1]2]") == "[2]"
  {
    RemoveCitationsExample();
    RemoveEditMarksExample();
    TidyExample();
  }

  lemma CleanSecondPass()
    ensures CleanEventText("[2]") == ""
  {
    RemoveCitationsMarker();
    assert RemoveEditMarks("") == "";
    TidyFixesNormalized("");
  }

  /** Cleaning is not idempotent in general: removing `[1]` from `[[1]2]`
      exposes the new marker `[2]`, which the second cleaning removes. */
  lemma CleanNotIdempotent()
    ensures CleanEventText("[[1]2]") == "[2]"
    ensures CleanEventText(CleanEventText("[[1]2]")) == ""
  {
    CleanFirstPass();
    CleanSecondPass();
  }
}

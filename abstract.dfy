/**
 * `extract_abstract_section` of funcs.py: search the text for
 * `Abstract\s*(.*?)\n{2,}` with `.` matching newlines, and return the
 * captured group with newlines turned into spaces and the ends stripped, or
 * `""` when nothing matches.
 *
 * The regular expression is modelled by the way the backtracking engine
 * explores it: the search starts at the first `Abstract`; `\s*` first takes
 * the whole whitespace run after it and gives characters back one at a time;
 * for each length of `\s*` the lazy group grows until the first blank line
 * (two newlines; `\n{2,}` needs no more than two to match).
 */
module AbstractSection {
  import opened Wrappers
  import opened Text

  const Heading := "Abstract"
  const BlankLine := "\n\n"

  /**
   * The engine at the first `Abstract` (offset `i`) with `\s*` holding `w`
   * characters: the lazy group ends at the first blank line after it; if
   * there is none, `\s*` gives back one character and the engine tries again.
   */
  function TryFrom(text: string, i: nat, w: nat): Option<string>
    requires i + 8 + w <= |text|
    decreases w
  {
    match FindFrom(text, BlankLine, i + 8 + w)
    case Some(p) => Some(text[i + 8 + w..p])
    case None => if w == 0 then None else TryFrom(text, i, w - 1)
  }

  /** The group captured by the search, if it matches. */
  function Capture(text: string): Option<string> {
    match FindFrom(text, Heading, 0)
    case None => None
    case Some(i) => TryFrom(text, i, SkipSpaces(text, i + 8) - (i + 8))
  }

  /** `s.replace('\n', ' ')` */
  function ReplaceNewlines(s: string): string {
    seq(|s|, k requires 0 <= k < |s| => if s[k] == '\n' then ' ' else s[k])
  }

  /** `extract_abstract_section(text)` */
  function ExtractAbstract(text: string): string {
    match Capture(text)
    case None => ""
    case Some(c) => Strip(ReplaceNewlines(c))
  }

  /**
   * Giving back whitespace characters finds a match exactly when some blank
   * line follows the heading; a match found only after giving back characters
   * captures the empty string, because that blank line then lies inside the
   * whitespace run.
   */
  lemma {:induction false} TryFromSpec(text: string, i: nat, w: nat)
    requires i + 8 + w <= |text|
    ensures TryFrom(text, i, w).Some? <==> FindFrom(text, BlankLine, i + 8).Some?
    ensures FindFrom(text, BlankLine, i + 8 + w).None? && TryFrom(text, i, w).Some? ==>
      TryFrom(text, i, w).value == []
    decreases w
  {
    FindFromMonotone(text, BlankLine, i + 8, i + 8 + w);
    if FindFrom(text, BlankLine, i + 8 + w).None? && w > 0 {
      TryFromSpec(text, i, w - 1);
      FindFromSpec(text, BlankLine, i + 8 + w);
      FindFromSpec(text, BlankLine, i + 8 + w - 1);
    }
  }

  /**
   * The search matches exactly when the first `Abstract` is followed by a
   * blank line somewhere. Then, with `j` the end of the whitespace run after
   * the heading, the group is the text from `j` to the first blank line at or
   * after `j`, or empty when every blank line lies inside the run.
   */
  lemma CaptureSpec(text: string)
    ensures Capture(text).Some? <==>
      FindFrom(text, Heading, 0).Some? && FindFrom(text, BlankLine, FindFrom(text, Heading, 0).value + 8).Some?
    ensures FindFrom(text, Heading, 0).Some? ==>
      var i := FindFrom(text, Heading, 0).value;
      var j := SkipSpaces(text, i + 8);
      && (FindFrom(text, BlankLine, j).Some? ==> Capture(text) == Some(text[j..FindFrom(text, BlankLine, j).value]))
      && (FindFrom(text, BlankLine, j).None? && Capture(text).Some? ==> Capture(text) == Some([]))
  {
    if FindFrom(text, Heading, 0).Some? {
      var i := FindFrom(text, Heading, 0).value;
      var j := SkipSpaces(text, i + 8);
      var w := j - (i + 8);
      assert Capture(text) == TryFrom(text, i, w);
      TryFromSpec(text, i, w);
      if FindFrom(text, BlankLine, j).Some? {
        assert TryFrom(text, i, w) == Some(text[j..FindFrom(text, BlankLine, j).value]);
      }
    }
  }

  /** The captured group never contains a blank line: the lazy group stops at the first one. */
  lemma CaptureHasNoBlankLine(text: string)
    requires Capture(text).Some?
    ensures !Contains(Capture(text).value, BlankLine)
  {
    CaptureSpec(text);
    var i := FindFrom(text, Heading, 0).value;
    var j := SkipSpaces(text, i + 8);
    if FindFrom(text, BlankLine, j).Some? {
      var p := FindFrom(text, BlankLine, j).value;
      FindFromSpec(text, BlankLine, j);
      NoOccurrenceInSlice(text, BlankLine, j, p);
    } else {
      assert Capture(text).value == [];
    }
  }

  /** Nothing matches without the exact, case-sensitive heading `Abstract`, nor without a blank line after it. */
  lemma NoMatchIsEmpty(text: string)
    ensures !Contains(text, Heading) ==> ExtractAbstract(text) == ""
    ensures FindFrom(text, Heading, 0).Some? && FindFrom(text, BlankLine, FindFrom(text, Heading, 0).value + 8).None? ==>
      ExtractAbstract(text) == ""
  {
    FindContains(text, Heading);
    CaptureSpec(text);
  }

  /** Matching is case-sensitive: an upper-case `ABSTRACT` heading followed by a blank line yields nothing. */
  lemma UpperCaseHeadingIgnored(body: string)
    requires !Contains(body, Heading)
    ensures ExtractAbstract("ABSTRACT\n\n" + body + BlankLine) == ""
  {
    var text := "ABSTRACT\n\n" + body + BlankLine;
    var e := 10 + |body|;
    assert text[10..e] == body;
    forall i: nat | i <= |text|
      ensures !OccursAt(text, Heading, i)
    {
      if i < 10 {
        // Only `A` can start the heading, and both `A`s here are followed by upper case.
        if i == 0 || i == 5 {
          MismatchAt(text, Heading, i, 1);
        } else {
          MismatchAt(text, Heading, i, 0);
        }
      } else if i + 8 <= e {
        OccursInSlice(text, Heading, 10, e, i - 10);
        assert !OccursAt(body, Heading, i - 10);
      } else if i <= e {
        // The candidate runs into the closing blank line.
        assert text[e] == '\n';
        MismatchAt(text, Heading, i, e - i);
      }
    }
    NoMatchIsEmpty(text);
  }

  /** `s.replace('\n', ' ')` rewrites exactly the newlines, each into a space. */
  lemma ReplaceNewlinesSpec(s: string)
    ensures |ReplaceNewlines(s)| == |s|
    ensures forall i :: 0 <= i < |s| ==> ReplaceNewlines(s)[i] == (if s[i] == '\n' then ' ' else s[i])
    ensures '\n' !in ReplaceNewlines(s)
    ensures '\n' !in s ==> ReplaceNewlines(s) == s
    ensures Visible(ReplaceNewlines(s)) == Visible(s)
  {
    ReplaceNewlinesVisible(s);
  }

  /** Turning newlines into spaces keeps the visible characters, because both are whitespace. */
  lemma {:induction false} ReplaceNewlinesVisible(s: string)
    ensures Visible(ReplaceNewlines(s)) == Visible(s)
    decreases |s|
  {
    if s != [] {
      var r := ReplaceNewlines(s);
      ReplaceNewlinesVisible(s[1..]);
      assert r[1..] == ReplaceNewlines(s[1..]);
      assert IsSpace(r[0]) == IsSpace(s[0]);
    }
  }

  /**
   * The extracted abstract is one line with no whitespace at either end, and
   * it keeps every visible character of the captured group, in order.
   */
  lemma ExtractAbstractShape(text: string)
    ensures var r := ExtractAbstract(text);
      && '\n' !in r
      && (r == [] || (!IsSpace(r[0]) && !IsSpace(r[|r| - 1])))
      && (Capture(text).Some? ==> Visible(r) == Visible(Capture(text).value))
  {
    if Capture(text).Some? {
      var t := ReplaceNewlines(Capture(text).value);
      ReplaceNewlinesSpec(Capture(text).value);
      StripShape(t);
      var left := TrimLeft(t);
      TrimLeftShape(t);
      TrimRightShape(left);
      var r := Strip(t);
      forall k | 0 <= k < |r|
        ensures r[k] != '\n'
      {
        assert r[k] == left[k];
        assert left[k] == t[|t| - |left| + k];
      }
    }
  }

  /** Stripping a text that starts and ends with a visible character leaves it unchanged. */
  lemma StripTrimmed(t: string)
    requires t == [] || (!IsSpace(t[0]) && !IsSpace(t[|t| - 1]))
    ensures Strip(t) == t
  {
  }

  /** When the text before offset `i` holds no `Abstract` and one starts at `i`, the search finds that one. */
  lemma HeadingFirst(text: string, i: nat)
    requires i + 8 <= |text| && text[i..i + 8] == Heading && !Contains(text[..i], Heading)
    ensures FindFrom(text, Heading, 0) == Some(i)
  {
    forall q: nat | q < i
      ensures !OccursAt(text, Heading, q)
    {
      if q + 8 <= i {
        OccursInSlice(text, Heading, 0, i, q);
        assert !OccursAt(text[..i], Heading, q);
      } else {
        // The candidate reaches the heading's `A`, which no later letter of `Abstract` matches.
        var d := i - q;
        assert text[q + d] == text[i..i + 8][0];
        HeadingHasOneA(d);
        MismatchAt(text, Heading, q, d);
      }
    }
    FindFromFirst(text, Heading, 0, i);
  }

  /** `Abstract` has no `A` after its first letter. */
  lemma HeadingHasOneA(d: nat)
    requires 0 < d < |Heading|
    ensures Heading[d] != 'A'
  {
  }

  /**
   * An abstract written as the heading, some whitespace, a one-line body with
   * no whitespace at either end and a blank line is read back exactly,
   * whatever follows, provided the text before the heading holds no
   * `Abstract` of its own.
   */
  lemma ExtractRoundTrip(pre: string, ws: string, body: string, rest: string)
    requires !Contains(pre, Heading) && AllSpace(ws)
    requires body != [] && '\n' !in body && !IsSpace(body[0]) && !IsSpace(body[|body| - 1])
    ensures ExtractAbstract(pre + Heading + ws + body + BlankLine + rest) == body
  {
    var text := pre + Heading + ws + body + BlankLine + rest;
    var i := |pre|;
    var j := i + 8 + |ws|;
    var p := j + |body|;
    assert text[..i] == pre && text[i..i + 8] == Heading && text[i + 8..j] == ws;
    assert text[j..p] == body && text[p..p + 2] == BlankLine;
    // The first `Abstract` starts right after `pre`.
    HeadingFirst(text, i);
    // `\s*` takes exactly `ws`: the body starts with a visible character.
    assert text[j] == body[0];
    SkipSpacesExact(text, i + 8, j);
    // The first blank line at or after `j` is the one after the body.
    BlankLineAfter(text, j, p);
    ExtractAt(text, i, j, p);
    ReplaceNewlinesSpec(body);
    StripTrimmed(body);
  }

  /** Once the heading, the end of its whitespace and the next blank line are located, the result is the text between. */
  lemma ExtractAt(text: string, i: nat, j: nat, p: nat)
    requires i + 8 <= |text| && FindFrom(text, Heading, 0) == Some(i) && SkipSpaces(text, i + 8) == j
    requires FindFrom(text, BlankLine, j) == Some(p)
    ensures j <= p <= |text| && ExtractAbstract(text) == Strip(ReplaceNewlines(text[j..p]))
  {
    FindFromSpec(text, BlankLine, j);
    CaptureSpec(text);
  }

  /** With no newline in `text[j..p]` and a blank line at `p`, the first blank line at or after `j` is at `p`. */
  lemma BlankLineAfter(text: string, j: nat, p: nat)
    requires j <= p && p + 2 <= |text| && text[p..p + 2] == BlankLine && '\n' !in text[j..p]
    ensures FindFrom(text, BlankLine, j) == Some(p)
  {
    forall q: nat | j <= q < p
      ensures !OccursAt(text, BlankLine, q)
    {
      assert text[q] == text[j..p][q - j];
      MismatchAt(text, BlankLine, q, 0);
    }
    FindFromFirst(text, BlankLine, j, p);
  }


}

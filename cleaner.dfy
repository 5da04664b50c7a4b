/**
 * The text side of save_pdfs.py: the four rewriting steps of `clean_text`,
 * the name of the text file saved for a downloaded URL, and the loop that
 * writes a cleaned copy `clean_<name>` of every `.txt` file in the data folder.
 *
 * Regular-expression substitutions are modelled by the way `re.sub` scans:
 * left to right, trying a match at each position, replacing it and
 * continuing after it, or keeping the character and moving one on.
 */
module Cleaner {
  import opened Wrappers
  import opened Text
  import opened Chunker

  /** `\d`, restricted to the ASCII digits. */
  predicate IsDigit(c: char) {
    '0' <= c <= '9'
  }

  predicate AllDigits(s: string) {
    forall k :: 0 <= k < |s| ==> IsDigit(s[k])
  }

  /** The end of the digit run starting at `from`: `\d+` taken greedily. */
  function DigitsEnd(s: string, from: nat): (r: nat)
    requires from <= |s|
    ensures from <= r <= |s|
    decreases |s| - from
  {
    if from < |s| && IsDigit(s[from]) then DigitsEnd(s, from + 1) else from
  }

  lemma {:induction false} DigitsEndSpec(s: string, from: nat)
    requires from <= |s|
    ensures var r := DigitsEnd(s, from);
      && AllDigits(s[from..r])
      && (r == |s| || !IsDigit(s[r]))
    decreases |s| - from
  {
    if from < |s| && IsDigit(s[from]) {
      DigitsEndSpec(s, from + 1);
      assert s[from..DigitsEnd(s, from)] == [s[from]] + s[from + 1..DigitsEnd(s, from)];
    }
  }

  lemma {:induction false} DigitsEndExact(s: string, from: nat, e: nat)
    requires from <= e <= |s| && AllDigits(s[from..e]) && (e == |s| || !IsDigit(s[e]))
    ensures DigitsEnd(s, from) == e
    decreases e - from
  {
    if from < e {
      assert IsDigit(s[from..e][0]);
      assert s[from + 1..e] == s[from..e][1..];
      DigitsEndExact(s, from + 1, e);
    }
  }

  const FigureWord := "Figure"
  const TableWord := "Table"
  const ReferPhrase := "refer to Figure"

  /** `\s*\d+` read greedily from `k`: the end of the digits, if there is at least one. */
  function NumberEnd(s: string, k: nat): (r: Option<nat>)
    requires k <= |s|
    ensures r.Some? ==> k < r.value <= |s|
  {
    var e := SkipSpaces(s, k);
    var d := DigitsEnd(s, e);
    if d > e then Some(d) else None
  }

  /** `\s*\d+:` read from `k`, for a match that started at `i`: the match length, if the colon is there. */
  function ColonMatch(s: string, i: nat, k: nat): (r: Option<nat>)
    requires i <= k <= |s|
    ensures r.Some? ==> 0 < r.value && i + r.value <= |s|
  {
    match NumberEnd(s, k)
    case Some(d) => if d < |s| && s[d] == ':' then Some(d + 1 - i) else None
    case None => None
  }

  /** `\s*\d+` read from `k`, for a match that started at `i`: the match length, if there is a digit. */
  function NumberMatch(s: string, i: nat, k: nat): (r: Option<nat>)
    requires i <= k <= |s|
    ensures r.Some? ==> k - i < r.value && i + r.value <= |s|
  {
    match NumberEnd(s, k)
    case Some(d) => Some(d - i)
    case None => None
  }

  /**
   * The length of the step-1 match starting at `i`, if any: `Figure\s*\d+:`,
   * `Table\s*\d+:` or `refer to Figure\s*\d+`. Whitespace and digits are
   * disjoint, so backtracking cannot find a shorter match where the greedy
   * one fails.
   */
  function PlaceholderAt(s: string, i: nat): (r: Option<nat>)
    requires i <= |s|
    ensures r.Some? ==> 0 < r.value && i + r.value <= |s|
  {
    if OccursAt(s, FigureWord, i) then ColonMatch(s, i, i + |FigureWord|)
    else if OccursAt(s, TableWord, i) then ColonMatch(s, i, i + |TableWord|)
    else if OccursAt(s, ReferPhrase, i) then NumberMatch(s, i, i + |ReferPhrase|)
    else None
  }

  /** `t` is some whitespace followed by at least one digit. */
  predicate IsNumber(t: string) {
    var e := SkipSpaces(t, 0);
    e < |t| && AllDigits(t[e..])
  }

  /** The three placeholder shapes of step 1, stated on the matched text itself. */
  predicate PlaceholderText(m: string) {
    || (StartsWith(m, FigureWord) && |m| > 6 && m[|m| - 1] == ':' && IsNumber(m[6..|m| - 1]))
    || (StartsWith(m, TableWord) && |m| > 5 && m[|m| - 1] == ':' && IsNumber(m[5..|m| - 1]))
    || (StartsWith(m, ReferPhrase) && IsNumber(m[15..]))
  }

  /** A number read greedily from `k` up to `d` is a number in the placeholder sense. */
  lemma NumberEndIsNumber(s: string, k: nat)
    requires k <= |s| && NumberEnd(s, k).Some?
    ensures var d := NumberEnd(s, k).value;
      IsNumber(s[k..d]) && (d == |s| || !IsDigit(s[d]))
  {
    var e := SkipSpaces(s, k);
    var d := DigitsEnd(s, e);
    SkipSpacesSpec(s, k);
    DigitsEndSpec(s, e);
    var t := s[k..d];
    assert t[..e - k] == s[k..e];
    assert t[e - k] == s[e];
    SkipSpacesExact(t, 0, e - k);
    assert t[e - k..] == s[e..d];
  }

  /** Conversely, a number in the slice `s[k..d]` that ends a digit run is what the greedy read finds. */
  lemma NumberIsNumberEnd(s: string, k: nat, d: nat)
    requires k <= d <= |s| && IsNumber(s[k..d]) && (d == |s| || !IsDigit(s[d]))
    ensures NumberEnd(s, k) == Some(d)
  {
    var t := s[k..d];
    var e := SkipSpaces(t, 0);
    SkipSpacesSpec(t, 0);
    SliceOfSlice(s, k, d - k, 0, e);
    SliceOfSlice(s, k, d - k, e, d - k);
    assert t[e..] == t[e..d - k];
    assert s[k + e] == t[e];
    assert IsDigit(t[e..][0]);
    SkipSpacesExact(s, k, k + e);
    DigitsEndExact(s, k + e, d);
  }

  /** After the keyword, a match is a number and a colon. */
  lemma ColonMatchSpec(s: string, i: nat, k: nat, n: nat)
    requires i <= k <= |s| && i + n <= |s|
    ensures ColonMatch(s, i, k) == Some(n) <==>
      k < i + n && s[i + n - 1] == ':' && IsNumber(s[k..i + n - 1])
  {
    if NumberEnd(s, k).Some? {
      NumberEndIsNumber(s, k);
    }
    if k < i + n && s[i + n - 1] == ':' && IsNumber(s[k..i + n - 1]) {
      NumberIsNumberEnd(s, k, i + n - 1);
    }
  }

  /** After `refer to Figure`, a match is a number read to its last digit. */
  lemma NumberMatchSpec(s: string, i: nat, k: nat, n: nat)
    requires i <= k <= |s| && i + n <= |s|
    ensures NumberMatch(s, i, k) == Some(n) <==>
      k <= i + n && IsNumber(s[k..i + n]) && (i + n == |s| || !IsDigit(s[i + n]))
  {
    if NumberEnd(s, k).Some? {
      NumberEndIsNumber(s, k);
    }
    if k <= i + n && IsNumber(s[k..i + n]) && (i + n == |s| || !IsDigit(s[i + n])) {
      NumberIsNumberEnd(s, k, i + n);
    }
  }

  /** The condition under which step 1 matches exactly the `n` characters at `i`. */
  predicate MatchesExactly(s: string, i: nat, n: nat)
    requires i + n <= |s|
  {
    PlaceholderText(s[i..i + n]) && (StartsWith(s[i..i + n], ReferPhrase) ==> i + n == |s| || !IsDigit(s[i + n]))
  }

  /** Which of the three words can start a slice is decided by the text at its start. */
  lemma SliceWords(s: string, i: nat, n: nat)
    requires i + n <= |s|
    ensures StartsWith(s[i..i + n], FigureWord) <==> n >= 6 && OccursAt(s, FigureWord, i)
    ensures StartsWith(s[i..i + n], TableWord) <==> n >= 5 && OccursAt(s, TableWord, i)
    ensures StartsWith(s[i..i + n], ReferPhrase) <==> n >= 15 && OccursAt(s, ReferPhrase, i)
    ensures OccursAt(s, FigureWord, i) ==> !OccursAt(s, TableWord, i) && !OccursAt(s, ReferPhrase, i)
    ensures OccursAt(s, TableWord, i) ==> !OccursAt(s, ReferPhrase, i)
  {
    OccursAtFirst(s, FigureWord, i);
    OccursAtFirst(s, TableWord, i);
    OccursAtFirst(s, ReferPhrase, i);
    StartsWithSlice(s, i, n, FigureWord);
    StartsWithSlice(s, i, n, TableWord);
    StartsWithSlice(s, i, n, ReferPhrase);
  }

  lemma FigureCase(s: string, i: nat, n: nat)
    requires i + n <= |s| && OccursAt(s, FigureWord, i)
    ensures PlaceholderAt(s, i) == Some(n) <==> MatchesExactly(s, i, n)
  {
    SliceWords(s, i, n);
    ColonMatchSpec(s, i, i + 6, n);
    if n > 6 {
      SliceOfSlice(s, i, n, 6, n - 1);
    }
  }

  lemma TableCase(s: string, i: nat, n: nat)
    requires i + n <= |s| && OccursAt(s, TableWord, i)
    ensures PlaceholderAt(s, i) == Some(n) <==> MatchesExactly(s, i, n)
  {
    SliceWords(s, i, n);
    ColonMatchSpec(s, i, i + 5, n);
    if n > 5 {
      SliceOfSlice(s, i, n, 5, n - 1);
    }
  }

  lemma ReferCase(s: string, i: nat, n: nat)
    requires i + n <= |s| && OccursAt(s, ReferPhrase, i)
    ensures PlaceholderAt(s, i) == Some(n) <==> MatchesExactly(s, i, n)
  {
    SliceWords(s, i, n);
    NumberMatchSpec(s, i, i + 15, n);
    if n >= 15 {
      SliceOfSlice(s, i, n, 15, n);
      assert s[i..i + n][15..] == s[i..i + n][15..n];
    }
  }

  /**
   * Step 1 matches `n` characters at `i` exactly when they have one of the
   * placeholder shapes and, for the `refer to Figure` shape, which has no
   * closing colon, the digits are not followed by another digit.
   */
  lemma PlaceholderAtSpec(s: string, i: nat, n: nat)
    requires i + n <= |s|
    ensures PlaceholderAt(s, i) == Some(n) <==> MatchesExactly(s, i, n)
  {
    SliceWords(s, i, n);
    if OccursAt(s, FigureWord, i) {
      FigureCase(s, i, n);
    } else if OccursAt(s, TableWord, i) {
      TableCase(s, i, n);
    } else if OccursAt(s, ReferPhrase, i) {
      ReferCase(s, i, n);
    }
  }

  /** `re.sub(placeholders, '', s)` scanning from offset `i`. */
  function RemoveFrom(s: string, i: nat): string
    requires i <= |s|
    decreases |s| - i
  {
    if i == |s| then []
    else
      match PlaceholderAt(s, i)
      case Some(n) => RemoveFrom(s, i + n)
      case None => [s[i]] + RemoveFrom(s, i + 1)
  }

  /** Step 1 of `clean_text`: remove figure and table placeholders. */
  function RemovePlaceholders(s: string): string {
    RemoveFrom(s, 0)
  }

  /** No match starts anywhere in `[i, j)`. */
  predicate Inert(s: string, i: nat, j: nat)
    requires i <= j <= |s|
  {
    forall k: nat :: i <= k < j ==> PlaceholderAt(s, k).None?
  }

  /** A character at which no match starts is copied. */
  lemma RemoveStep(s: string, i: nat)
    requires i < |s| && PlaceholderAt(s, i).None?
    ensures RemoveFrom(s, i) == [s[i]] + RemoveFrom(s, i + 1)
  {
  }

  /** A match is deleted and the scan resumes right after it. */
  lemma RemoveSkips(s: string, i: nat, n: nat)
    requires i < |s| && PlaceholderAt(s, i) == Some(n)
    ensures i + n <= |s| && RemoveFrom(s, i) == RemoveFrom(s, i + n)
  {
  }

  /** Characters at which no match starts are copied as they are. */
  lemma {:induction false} RemoveKeeps(s: string, i: nat, j: nat)
    requires i <= j <= |s| && Inert(s, i, j)
    ensures RemoveFrom(s, i) == s[i..j] + RemoveFrom(s, j)
    decreases j - i
  {
    if i < j {
      RemoveStep(s, i);
      RemoveKeeps(s, i + 1, j);
      ConsSlice(s, i, j, RemoveFrom(s, j));
    }
  }

  /** A text in which no placeholder starts is left unchanged by step 1. */
  lemma RemoveIdentity(s: string)
    requires Inert(s, 0, |s|)
    ensures RemovePlaceholders(s) == s
  {
    RemoveKeeps(s, 0, |s|);
  }

  /** A placeholder between two stretches where no match starts is deleted, and only it. */
  lemma RemoveDeletesOne(s: string, i: nat, n: nat)
    requires i + n <= |s| && Inert(s, 0, i) && PlaceholderAt(s, i) == Some(n) && Inert(s, i + n, |s|)
    ensures RemovePlaceholders(s) == s[..i] + s[i + n..]
  {
    RemoveKeeps(s, 0, i);
    RemoveSkips(s, i, n);
    RemoveKeeps(s, i + n, |s|);
    assert RemoveFrom(s, |s|) == [];
    assert s[i + n..|s|] + [] == s[i + n..];
  }

  /** No match can start at a character other than `F`, `T` or `r`. */
  lemma NoPlaceholderHere(s: string, i: nat)
    requires i < |s| && s[i] != 'F' && s[i] != 'T' && s[i] != 'r'
    ensures PlaceholderAt(s, i).None?
  {
    OccursAtFirst(s, FigureWord, i);
    OccursAtFirst(s, TableWord, i);
    OccursAtFirst(s, ReferPhrase, i);
  }

  /** In `FiTable 1:gure 2:` a match starts only at offset 2, where `Table 1:` is. */
  lemma SinglePassMatches(s: string)
    requires s == "FiTable 1:gure 2:"
    ensures Inert(s, 0, 2) && PlaceholderAt(s, 2) == Some(8) && Inert(s, 10, |s|)
  {
    SinglePassHead(s);
    SinglePassTable(s);
    SinglePassTail(s);
  }

  lemma SinglePassHead(s: string)
    requires s == "FiTable 1:gure 2:"
    ensures Inert(s, 0, 2)
  {
    assert s[2] != FigureWord[2];
    MismatchAt(s, FigureWord, 0, 2);
    OccursAtFirst(s, TableWord, 0);
    OccursAtFirst(s, ReferPhrase, 0);
    assert PlaceholderAt(s, 0).None?;
    NoPlaceholderHere(s, 1);
    forall k: nat | 0 <= k < 2
      ensures PlaceholderAt(s, k).None?
    {
    }
  }

  lemma SinglePassTable(s: string)
    requires s == "FiTable 1:gure 2:"
    ensures PlaceholderAt(s, 2) == Some(8)
  {
    assert OccursAt(s, TableWord, 2);
    SkipSpacesExact(s, 7, 8);
    DigitsEndExact(s, 8, 9);
  }

  lemma SinglePassTail(s: string)
    requires s == "FiTable 1:gure 2:"
    ensures Inert(s, 10, |s|)
  {
    forall k: nat | 10 <= k < |s|
      ensures PlaceholderAt(s, k).None?
    {
      if k == 12 {
        OccursAtFirst(s, FigureWord, k);
        OccursAtFirst(s, TableWord, k);
        assert !OccursAt(s, ReferPhrase, k);
      } else {
        NoPlaceholderHere(s, k);
      }
    }
  }

  /** `Figure 2:` is a placeholder. */
  lemma FigureTwoMatches(t: string)
    requires t == "Figure 2:"
    ensures PlaceholderAt(t, 0) == Some(9)
  {
    assert OccursAt(t, FigureWord, 0);
    SkipSpacesExact(t, 6, 7);
    DigitsEndExact(t, 7, 8);
  }

  /**
   * Step 1 is a single pass: deleting `Table 1:` from `FiTable 1:gure 2:`
   * joins the rest into `Figure 2:`, which is itself a placeholder and stays.
   */
  lemma RemoveSinglePass()
    ensures RemovePlaceholders("Fi" + "Table 1:" + "gure 2:") == "Fi" + "gure 2:"
    ensures PlaceholderAt("Fi" + "gure 2:", 0) == Some(9)
  {
    SinglePassRemoves("Fi", "Table 1:", "gure 2:");
    FigureTwoMatches("Fi" + "gure 2:");
  }

  lemma SinglePassRemoves(a: string, m: string, b: string)
    requires a == "Fi" && m == "Table 1:" && b == "gure 2:"
    ensures RemovePlaceholders(a + m + b) == a + b
  {
    var s := a + m + b;
    SinglePassMatches(s);
    RemoveDeletesOne(s, 2, 8);
    assert s[..2] == a && s[10..] == b;
  }

  /** A newline with no newline immediately before or after it, in the original text. */
  predicate LoneNewline(s: string, k: nat)
    requires k < |s|
  {
    s[k] == '\n' && (k == 0 || s[k - 1] != '\n') && (k + 1 == |s| || s[k + 1] != '\n')
  }

  /** Step 2, `re.sub(r'(?<!\n)\n(?!\n)', ' ', s)`: every lone newline becomes a space. */
  function MergeLineBreaks(s: string): string {
    seq(|s|, k requires 0 <= k < |s| => if LoneNewline(s, k) then ' ' else s[k])
  }

  /** Two texts that differ only in which whitespace character sits at some positions have the same visible characters. */
  lemma {:induction false} VisibleSameShape(a: string, b: string)
    requires |a| == |b|
    requires forall k :: 0 <= k < |a| ==> a[k] == b[k] || (IsSpace(a[k]) && IsSpace(b[k]))
    ensures Visible(a) == Visible(b)
  {
    if a != [] {
      VisibleSameShape(a[1..], b[1..]);
    }
  }

  /**
   * Step 2 keeps the length and the visible characters, keeps exactly the
   * newlines that belong to a run of two or more, leaves no lone newline, and
   * so is idempotent.
   */
  lemma MergeLineBreaksSpec(s: string)
    ensures var r := MergeLineBreaks(s);
      && |r| == |s|
      && Visible(r) == Visible(s)
      && (forall k :: 0 <= k < |s| ==> (r[k] == '\n' <==> s[k] == '\n' && !LoneNewline(s, k)))
      && (forall k :: 0 <= k < |r| ==> !LoneNewline(r, k))
      && MergeLineBreaks(r) == r
  {
    var r := MergeLineBreaks(s);
    VisibleSameShape(r, s);
    forall k | 0 <= k < |r|
      ensures !LoneNewline(r, k)
    {
      if r[k] == '\n' {
        assert s[k] == '\n' && !LoneNewline(s, k);
        if k > 0 && s[k - 1] == '\n' {
          assert !LoneNewline(s, k - 1);
        } else {
          assert !LoneNewline(s, k + 1);
        }
      }
    }
  }

  /** Step 2 leaves a text without newlines unchanged. */
  lemma MergeLineBreaksInert(s: string)
    requires '\n' !in s
    ensures MergeLineBreaks(s) == s
  {
  }

  /** The last newline in `s[lo..hi]`, if any. */
  function LastNewline(s: string, lo: nat, hi: nat): (r: Option<nat>)
    requires lo <= hi <= |s|
    ensures r.Some? ==> lo <= r.value < hi && s[r.value] == '\n'
    decreases hi
  {
    if hi == lo then None
    else if s[hi - 1] == '\n' then Some(hi - 1)
    else LastNewline(s, lo, hi - 1)
  }

  /**
   * `re.sub(r'\n\s*\n', '\n\n', s)` scanning from offset `i`. At a newline,
   * `\s*` takes the whole whitespace run and gives characters back until a
   * newline follows, so the match ends at the last newline of the run.
   */
  function SectionFrom(s: string, i: nat): string
    requires i <= |s|
    decreases |s| - i
  {
    if i == |s| then []
    else if s[i] == '\n' then
      match LastNewline(s, i + 1, SkipSpaces(s, i + 1))
      case Some(q) => "\n\n" + SectionFrom(s, q + 1)
      case None => [s[i]] + SectionFrom(s, i + 1)
    else [s[i]] + SectionFrom(s, i + 1)
  }

  /** Step 4 of `clean_text`: turn blank-line runs into exactly two newlines. */
  function SectionBreaks(s: string): string {
    SectionFrom(s, 0)
  }

  lemma {:induction false} SectionFromInert(s: string, i: nat)
    requires i <= |s| && '\n' !in s
    ensures SectionFrom(s, i) == s[i..]
    decreases |s| - i
  {
    if i < |s| {
      SectionFromInert(s, i + 1);
      assert s[i..] == [s[i]] + s[i + 1..];
    }
  }

  /** Step 4 leaves a text without newlines unchanged. */
  lemma SectionBreaksInert(s: string)
    requires '\n' !in s
    ensures SectionBreaks(s) == s
  {
    SectionFromInert(s, 0);
  }

  /** Two newlines separated only by whitespace become exactly one blank line. */
  lemma SectionBreaksBlank(ws: string)
    requires AllSpace(ws)
    ensures SectionBreaks("\n" + ws + "\n") == "\n\n"
  {
    var s := "\n" + ws + "\n";
    assert s[1..|s|] == ws + "\n";
    assert AllSpace(s[1..|s|]);
    SkipSpacesExact(s, 1, |s|);
    assert s[0] == '\n' && s[|s| - 1] == '\n';
    assert LastNewline(s, 1, |s|) == Some(|s| - 1);
    assert SectionFrom(s, |s|) == [];
  }

  /**
   * `clean_text` on the text read from the input file: remove placeholders,
   * merge broken lines, collapse whitespace and strip, restore section breaks.
   */
  function CleanText(s: string): string {
    SectionBreaks(Normalize(MergeLineBreaks(RemovePlaceholders(s))))
  }

  /** Steps 2 to 4 of `clean_text`, the whitespace rewriting. */
  function CleanWhitespace(s: string): string {
    SectionBreaks(Normalize(MergeLineBreaks(s)))
  }

  /**
   * The cleaned text is one line of single-spaced words with no whitespace at
   * either end; step 4 never changes anything, because step 3 has already
   * removed every newline; and the visible characters are exactly those left
   * by step 1, in order.
   */
  lemma CleanTextSpec(s: string)
    ensures var r := CleanText(s);
      && Canonical(r)
      && '\n' !in r
      && r == Normalize(MergeLineBreaks(RemovePlaceholders(s)))
      && Visible(r) == Visible(RemovePlaceholders(s))
  {
    var t := RemovePlaceholders(s);
    var n := Normalize(MergeLineBreaks(t));
    NormalizeShape(MergeLineBreaks(t));
    CanonicalFacts(n);
    SectionBreaksInert(n);
    MergeLineBreaksSpec(t);
  }

  /** The whitespace steps are idempotent: applying them to the cleaned text changes nothing. */
  lemma CleanWhitespaceIdempotent(s: string)
    ensures CleanWhitespace(CleanText(s)) == CleanText(s)
  {
    var r := CleanText(s);
    CleanTextSpec(s);
    MergeLineBreaksInert(r);
    NormalizeFixesCanonical(r);
    SectionBreaksInert(r);
  }

  /** `url.split('/')[-1]` */
  function LastSegment(url: string): string {
    var parts := Split(url, "/");
    parts[|parts| - 1]
  }

  /** `os.path.join(dir, name)` on POSIX paths. */
  function PathJoin(dir: string, name: string): string {
    if StartsWith(name, "/") then name
    else if dir == [] || EndsWith(dir, "/") then dir + name
    else dir + "/" + name
  }

  /** `os.path.join(data_path, url.split('/')[-1] + '.txt')`, the file a URL's text is saved to. */
  function TextFileFor(dataPath: string, url: string): string {
    PathJoin(dataPath, LastSegment(url) + ".txt")
  }

  lemma {:induction false} JoinLast(parts: seq<string>, sep: string)
    requires |parts| >= 2
    ensures Join(parts, sep) == Join(parts[..|parts| - 1], sep) + sep + parts[|parts| - 1]
    decreases |parts|
  {
    var n := |parts|;
    if n > 2 {
      JoinLast(parts[1..], sep);
      assert parts[1..][..n - 2] == parts[..n - 1][1..];
    }
  }

  /**
   * The last segment is the part of the URL after its last `/` (the whole URL
   * when there is none, the empty string when it ends with `/`).
   */
  lemma LastSegmentSpec(url: string)
    ensures var seg := LastSegment(url);
      && '/' !in seg
      && EndsWith(url, seg)
      && (|seg| == |url| || url[|url| - |seg| - 1] == '/')
  {
    var parts := Split(url, "/");
    var seg := parts[|parts| - 1];
    SplitPieces(url, "/");
    JoinSplit(url, "/");
    if '/' in seg {
      var k :| 0 <= k < |seg| && seg[k] == '/';
      assert OccursAt(seg, "/", k);
    }
    if |parts| >= 2 {
      JoinLast(parts, "/");
      var init := Join(parts[..|parts| - 1], "/");
      assert url == init + "/" + seg;
      assert url[|url| - |seg|..] == seg;
    }
  }

  /**
   * The saved file sits directly inside the data folder and is named after the
   * URL's last segment plus `.txt`; URLs with the same last segment share it.
   */
  lemma TextFileForSpec(dataPath: string, url: string)
    ensures var dir := if dataPath == [] || EndsWith(dataPath, "/") then dataPath else dataPath + "/";
      TextFileFor(dataPath, url) == dir + LastSegment(url) + ".txt"
    ensures '/' !in LastSegment(url)
  {
    var seg := LastSegment(url);
    var name := seg + ".txt";
    LastSegmentSpec(url);
    StartsWithFirst(name, "/");
    assert name[0] == (if seg == [] then '.' else seg[0]);
  }

  /**
   * The folder after the download loop over `urls`: each URL's text, as the
   * converter `fetch` returns it, is written to its file; a later URL with the
   * same last segment overwrites an earlier one.
   */
  function SaveAll(urls: seq<string>, dataPath: string, fetch: string -> string, folder: map<string, string>)
    : (r: map<string, string>)
    ensures r.Keys == folder.Keys + set u | u in urls :: TextFileFor(dataPath, u)
    decreases |urls|
  {
    if urls == [] then folder
    else
      var u := urls[|urls| - 1];
      SaveAll(urls[..|urls| - 1], dataPath, fetch, folder)[TextFileFor(dataPath, u) := fetch(u)]
  }

  /** Each URL's file holds that URL's text unless a later URL writes the same file. */
  lemma {:induction false} SaveAllLatest(urls: seq<string>, dataPath: string, fetch: string -> string,
                                         folder: map<string, string>, j: nat)
    requires j < |urls|
    requires forall m :: j < m < |urls| ==> TextFileFor(dataPath, urls[m]) != TextFileFor(dataPath, urls[j])
    ensures SaveAll(urls, dataPath, fetch, folder)[TextFileFor(dataPath, urls[j])] == fetch(urls[j])
    decreases |urls|
  {
    var n := |urls| - 1;
    var init := urls[..n];
    if j < n {
      assert init[j] == urls[j];
      forall m | j < m < |init|
        ensures TextFileFor(dataPath, init[m]) != TextFileFor(dataPath, init[j])
      {
        assert init[m] == urls[m];
      }
      SaveAllLatest(init, dataPath, fetch, folder, j);
    }
  }

  /** A file that no URL writes keeps its contents. */
  lemma {:induction false} SaveAllKeeps(urls: seq<string>, dataPath: string, fetch: string -> string,
                                        folder: map<string, string>, f: string)
    requires f in folder && forall u :: u in urls ==> TextFileFor(dataPath, u) != f
    ensures SaveAll(urls, dataPath, fetch, folder)[f] == folder[f]
    decreases |urls|
  {
    if urls != [] {
      var init := urls[..|urls| - 1];
      assert urls[|urls| - 1] in urls;
      forall u | u in init
        ensures TextFileFor(dataPath, u) != f
      {
        assert u in urls;
      }
      SaveAllKeeps(init, dataPath, fetch, folder, f);
    }
  }

  /** The download loop of save_pdfs.py: write each URL's text to its file in the data folder, in order. */
  method SaveTexts(urls: seq<string>, dataPath: string, fetch: string -> string, folder0: map<string, string>)
    returns (folder: map<string, string>)
    ensures folder == SaveAll(urls, dataPath, fetch, folder0)
  {
    folder := folder0;
    for k := 0 to |urls|
      invariant folder == SaveAll(urls[..k], dataPath, fetch, folder0)
    {
      assert urls[..k + 1][..k] == urls[..k];
      var filename := TextFileFor(dataPath, urls[k]);
      folder := folder[filename := fetch(urls[k])];
    }
    assert urls[..|urls|] == urls;
  }

  const CleanPrefix := "clean_"

  /** The cleaned copy of `file` is written beside it as `'clean_' + file`. */
  function CleanedName(file: string): string {
    CleanPrefix + file
  }

  /** One turn of the cleaning loop: a `.txt` file gets its cleaned copy written (or overwritten). */
  function CleanStep(folder: map<string, string>, file: string): map<string, string>
    requires file in folder
  {
    if IsTxt(file) then folder[CleanedName(file) := CleanText(folder[file])] else folder
  }

  /**
   * The data folder after the cleaning loop over `listing` (the listing taken
   * before the loop starts): every listed `.txt` file has a cleaned copy, and
   * no other file is added.
   */
  function CleanAll(listing: seq<string>, folder: map<string, string>): (r: map<string, string>)
    requires forall f :: f in listing ==> f in folder
    ensures r.Keys == folder.Keys + set f | f in listing && IsTxt(f) :: CleanedName(f)
    decreases |listing|
  {
    if listing == [] then folder
    else
      var prev := CleanAll(listing[..|listing| - 1], folder);
      CleanedNamesSnoc(listing);
      CleanStep(prev, listing[|listing| - 1])
  }

  /** The cleaned names of a listing are those of its prefix plus the last file's, if it is a `.txt` file. */
  lemma CleanedNamesSnoc(listing: seq<string>)
    requires listing != []
    ensures var n := |listing| - 1;
      (set f | f in listing && IsTxt(f) :: CleanedName(f))
      == (set f | f in listing[..n] && IsTxt(f) :: CleanedName(f))
         + (if IsTxt(listing[n]) then {CleanedName(listing[n])} else {})
  {
    assert listing == listing[..|listing| - 1] + [listing[|listing| - 1]];
  }

  /** The cleaned copy of a `.txt` file is a `.txt` file too, so a later run cleans it again. */
  lemma CleanedNameIsTxt(file: string)
    requires IsTxt(file)
    ensures IsTxt(CleanedName(file))
  {
    var c := CleanedName(file);
    assert c[|c| - 4..] == file[|file| - 4..];
  }

  /** Running the loop over a folder that already holds `clean_x.txt` produces `clean_clean_x.txt`. */
  lemma RerunCleansCopies(listing: seq<string>, folder: map<string, string>, file: string)
    requires forall f :: f in listing ==> f in folder
    requires IsTxt(file) && CleanedName(file) in listing
    ensures CleanedName(CleanedName(file)) in CleanAll(listing, folder)
  {
    CleanedNameIsTxt(file);
  }

  /**
   * The loop writes only names that start with `clean_`. So every other file
   * keeps its contents, and every listed `.txt` file whose name does not start
   * with `clean_` gets a copy that is `CleanText` of its original contents.
   * A listed `clean_` file is read as the loop finds it, which may be a copy
   * written earlier in the same run.
   */
  lemma {:induction false} CleanAllFresh(listing: seq<string>, folder: map<string, string>)
    requires forall f :: f in listing ==> f in folder
    ensures forall f :: f in folder && !StartsWith(f, CleanPrefix) ==> CleanAll(listing, folder)[f] == folder[f]
    ensures forall f :: f in listing && IsTxt(f) && !StartsWith(f, CleanPrefix) ==>
      CleanAll(listing, folder)[CleanedName(f)] == CleanText(folder[f])
    decreases |listing|
  {
    if listing != [] {
      var init := listing[..|listing| - 1];
      var last := listing[|listing| - 1];
      CleanAllFresh(init, folder);
      var prev := CleanAll(init, folder);
      var r := CleanAll(listing, folder);
      forall f | f in folder && !StartsWith(f, CleanPrefix)
        ensures r[f] == folder[f]
      {
        assert StartsWith(CleanedName(last), CleanPrefix);
      }
      forall f | f in listing && IsTxt(f) && !StartsWith(f, CleanPrefix)
        ensures r[CleanedName(f)] == CleanText(folder[f])
      {
        if f != last {
          assert f in init;
          assert CleanedName(f) != CleanedName(last) by {
            assert CleanedName(f)[6..] == f && CleanedName(last)[6..] == last;
          }
        }
      }
    }
  }

  /** The cleaning loop of save_pdfs.py over a listing of the data folder, writing into the folder. */
  method CleanFolder(listing: seq<string>, folder0: map<string, string>) returns (folder: map<string, string>)
    requires forall f :: f in listing ==> f in folder0
    ensures folder == CleanAll(listing, folder0)
  {
    folder := folder0;
    for k := 0 to |listing|
      invariant folder == CleanAll(listing[..k], folder0)
    {
      var file := listing[k];
      assert listing[..k + 1][..k] == listing[..k];
      if IsTxt(file) {
        folder := folder[CleanedName(file) := CleanText(folder[file])];
      }
    }
    assert listing[..|listing|] == listing;
  }
}

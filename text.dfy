/**
 * String helpers shared by the corpus loader, the abstract extractor and the
 * text cleaner: Python's whitespace table, `str.strip()`,
 * `re.sub(r'\s+', ' ', s)`, `str.find`, `str.split(sep)` and `sep.join(parts)`.
 *
 * The functions carry only the size facts their callers need to be well
 * defined; what they mean is stated by the lemmas after each of them.
 */
module Text {
  import opened Wrappers

  /** Python's `str.isspace()`, which is also what `\s` and `str.strip()` use. */
  predicate IsSpace(c: char) {
    || ('\t' <= c <= '\r')
    || ('\U{1C}' <= c <= ' ')
    || c == '\U{85}' || c == '\U{A0}' || c == '\U{1680}'
    || ('\U{2000}' <= c <= '\U{200A}')
    || c == '\U{2028}' || c == '\U{2029}' || c == '\U{202F}' || c == '\U{205F}' || c == '\U{3000}'
  }

  predicate AllSpace(s: string) {
    forall i :: 0 <= i < |s| ==> IsSpace(s[i])
  }

  /** The non-whitespace characters of `s`, in order. */
  function Visible(s: string): string {
    if s == [] then [] else (if IsSpace(s[0]) then [] else [s[0]]) + Visible(s[1..])
  }

  /** Every whitespace character is a plain space, and no two spaces are adjacent. */
  predicate SingleSpaced(s: string) {
    && (forall i :: 0 <= i < |s| && IsSpace(s[i]) ==> s[i] == ' ')
    && (forall i :: 0 < i < |s| && s[i] == ' ' ==> s[i - 1] != ' ')
  }

  /** Single-spaced with no whitespace at either end: the shape of a normalised text. */
  predicate Canonical(s: string) {
    SingleSpaced(s) && (s == [] || (s[0] != ' ' && s[|s| - 1] != ' '))
  }

  /** A canonical text has no newline and starts and ends with a visible character. */
  lemma CanonicalFacts(t: string)
    requires Canonical(t)
    ensures t == [] || (!IsSpace(t[0]) && !IsSpace(t[|t| - 1]))
    ensures '\n' !in t
  {
    forall k | 0 <= k < |t|
      ensures t[k] != '\n'
    {
      assert IsSpace(t[k]) ==> t[k] == ' ';
    }
  }

  lemma {:induction false} VisibleAppend(a: string, b: string)
    ensures Visible(a + b) == Visible(a) + Visible(b)
  {
    if a != [] {
      assert (a + b)[1..] == a[1..] + b;
      VisibleAppend(a[1..], b);
    } else {
      assert a + b == b;
    }
  }

  lemma {:induction false} VisibleOfSpaces(s: string)
    ensures AllSpace(s) <==> Visible(s) == []
  {
    if s != [] {
      VisibleOfSpaces(s[1..]);
    }
  }

  /** Any slice of a single-spaced text is single-spaced. */
  lemma SingleSpacedSlice(s: string, a: nat, b: nat)
    requires SingleSpaced(s) && a <= b <= |s|
    ensures SingleSpaced(s[a..b])
  {
    var t := s[a..b];
    forall i | 0 < i < |t| && t[i] == ' '
      ensures t[i - 1] != ' '
    {
      assert t[i] == s[a + i] && t[i - 1] == s[a + i - 1];
    }
  }

  /** The end of the whitespace run starting at `from`: `\s*` taken greedily. */
  function SkipSpaces(s: string, from: nat): (r: nat)
    requires from <= |s|
    ensures from <= r <= |s|
    decreases |s| - from
  {
    if from < |s| && IsSpace(s[from]) then SkipSpaces(s, from + 1) else from
  }

  /** `\s*` stops at the first character that is not whitespace, or at the end. */
  lemma {:induction false} SkipSpacesSpec(s: string, from: nat)
    requires from <= |s|
    ensures var r := SkipSpaces(s, from);
      && AllSpace(s[from..r])
      && (r == |s| || !IsSpace(s[r]))
    decreases |s| - from
  {
    if from < |s| && IsSpace(s[from]) {
      SkipSpacesSpec(s, from + 1);
      assert s[from..SkipSpaces(s, from)] == [s[from]] + s[from + 1..SkipSpaces(s, from)];
    }
  }

  /** A run of whitespace ending at a visible character (or at the end) is what `\s*` takes. */
  lemma {:induction false} SkipSpacesExact(s: string, from: nat, e: nat)
    requires from <= e <= |s| && AllSpace(s[from..e]) && (e == |s| || !IsSpace(s[e]))
    ensures SkipSpaces(s, from) == e
    decreases e - from
  {
    if from < e {
      assert IsSpace(s[from..e][0]);
      assert s[from + 1..e] == s[from..e][1..];
      SkipSpacesExact(s, from + 1, e);
    }
  }

  /** Peeling the first character off a slice, in front of any continuation. */
  lemma ConsSlice(s: string, i: nat, j: nat, z: string)
    requires i < j <= |s|
    ensures [s[i]] + (s[i + 1..j] + z) == s[i..j] + z
  {
    assert s[i..j] == [s[i]] + s[i + 1..j];
  }

  /** `s.lstrip()` */
  function TrimLeft(s: string): (r: string)
    ensures |r| <= |s|
    ensures s != [] && IsSpace(s[0]) ==> |r| < |s|
  {
    if s != [] && IsSpace(s[0]) then TrimLeft(s[1..]) else s
  }

  /** `lstrip` drops exactly the leading whitespace: a suffix remains that starts with a visible character, if any. */
  lemma {:induction false} TrimLeftShape(s: string)
    ensures var r := TrimLeft(s);
      && r == s[|s| - |r|..]
      && AllSpace(s[..|s| - |r|])
      && (r == [] || !IsSpace(r[0]))
      && Visible(r) == Visible(s)
  {
    if s != [] && IsSpace(s[0]) {
      var r := TrimLeft(s[1..]);
      TrimLeftShape(s[1..]);
      assert s[..|s| - |r|] == [s[0]] + s[1..][..|s| - 1 - |r|];
    }
  }

  /** `s.rstrip()` */
  function TrimRight(s: string): (r: string)
    ensures |r| <= |s|
  {
    if s != [] && IsSpace(s[|s| - 1]) then TrimRight(s[..|s| - 1]) else s
  }

  /** The slicing half of `TrimRightShape`, proved by induction. */
  lemma {:induction false} TrimRightSlice(s: string)
    ensures var r := TrimRight(s);
      && r == s[..|r|]
      && AllSpace(s[|r|..])
      && (r == [] || !IsSpace(r[|r| - 1]))
  {
    if s != [] && IsSpace(s[|s| - 1]) {
      var init := s[..|s| - 1];
      var r := TrimRight(init);
      TrimRightSlice(init);
      assert init[..|r|] == s[..|r|];
      assert s[|r|..] == init[|r|..] + [s[|s| - 1]];
    }
  }

  /** `rstrip` drops exactly the trailing whitespace: a prefix remains that ends with a visible character, if any. */
  lemma TrimRightShape(s: string)
    ensures var r := TrimRight(s);
      && r == s[..|r|]
      && AllSpace(s[|r|..])
      && (r == [] || !IsSpace(r[|r| - 1]))
      && Visible(r) == Visible(s)
  {
    var r := TrimRight(s);
    TrimRightSlice(s);
    assert s == r + s[|r|..];
    VisibleAppend(r, s[|r|..]);
    VisibleOfSpaces(s[|r|..]);
  }

  /** `s.strip()` */
  function Strip(s: string): string {
    TrimRight(TrimLeft(s))
  }

  /** `strip` leaves no whitespace at either end and keeps every visible character. */
  lemma StripShape(s: string)
    ensures var r := Strip(s);
      && (r == [] || (!IsSpace(r[0]) && !IsSpace(r[|r| - 1])))
      && Visible(r) == Visible(s)
  {
    TrimLeftShape(s);
    TrimRightShape(TrimLeft(s));
  }

  lemma StripKeepsSingleSpaced(s: string)
    requires SingleSpaced(s)
    ensures Canonical(Strip(s))
  {
    var left := TrimLeft(s);
    TrimLeftShape(s);
    TrimRightShape(left);
    SingleSpacedSlice(s, |s| - |left|, |s|);
    SingleSpacedSlice(left, 0, |TrimRight(left)|);
  }

  /** `re.sub(r'\s+', ' ', s)`: every maximal whitespace run becomes one space. */
  function Collapse(s: string): string
    decreases |s|
  {
    if s == [] then []
    else if IsSpace(s[0]) then " " + Collapse(TrimLeft(s))
    else [s[0]] + Collapse(s[1..])
  }

  /**
   * `re.sub(r'\s+', ' ', s)` leaves a single-spaced text with the same visible
   * characters, which starts with a space exactly when `s` starts with whitespace.
   */
  lemma {:induction false} CollapseShape(s: string)
    ensures var r := Collapse(s);
      && (r == [] <==> s == [])
      && (r != [] ==> (r[0] == ' ' <==> IsSpace(s[0])))
      && SingleSpaced(r)
      && Visible(r) == Visible(s)
    decreases |s|
  {
    if s != [] {
      if IsSpace(s[0]) {
        var rest := TrimLeft(s);
        var run := s[..|s| - |rest|];
        TrimLeftShape(s);
        CollapseShape(rest);
        SingleSpacedCons(' ', Collapse(rest));
        VisibleOfSpaces(run);
        assert s == run + rest;
        VisibleAppend(run, rest);
        VisibleAppend(" ", Collapse(rest));
      } else {
        CollapseShape(s[1..]);
        SingleSpacedCons(s[0], Collapse(s[1..]));
        VisibleAppend([s[0]], Collapse(s[1..]));
        assert s == [s[0]] + s[1..];
        VisibleAppend([s[0]], s[1..]);
      }
    }
  }

  /** `lstrip` of a text with a visible character stops inside it, so whatever follows is kept whole. */
  lemma {:induction false} TrimLeftAppend(a: string, b: string)
    requires !AllSpace(a)
    ensures TrimLeft(a + b) == TrimLeft(a) + b
    decreases |a|
  {
    if IsSpace(a[0]) {
      assert (a + b)[1..] == a[1..] + b;
      TrimLeftAppend(a[1..], b);
    }
  }

  /** `lstrip` of a whitespace run followed by a text that starts with a visible character leaves exactly that text. */
  lemma {:induction false} TrimLeftRun(w: string, b: string)
    requires AllSpace(w) && (b == [] || !IsSpace(b[0]))
    ensures TrimLeft(w + b) == b
    decreases |w|
  {
    if w == [] {
      assert w + b == b;
    } else {
      assert (w + b)[1..] == w[1..] + b;
      TrimLeftRun(w[1..], b);
    }
  }

  /** A whole whitespace run becomes a single space, and the text after it is collapsed on its own. */
  lemma RunThen(w: string, b: string)
    requires w != [] && AllSpace(w) && (b == [] || !IsSpace(b[0]))
    ensures Collapse(w + b) == " " + Collapse(b)
  {
    assert (w + b)[0] == w[0];
    TrimLeftRun(w, b);
  }

  /** Collapsing distributes over a cut right after a visible character: no run spans the cut. */
  lemma {:induction false} CollapseAppend(a: string, b: string)
    requires a == [] || !IsSpace(a[|a| - 1])
    ensures Collapse(a + b) == Collapse(a) + Collapse(b)
    decreases |a|
  {
    if a == [] {
      assert a + b == b;
    } else if IsSpace(a[0]) {
      var t := TrimLeft(a);
      TrimLeftKeepsLast(a);
      TrimLeftAppend(a, b);
      CollapseAppend(t, b);
      calc {
        Collapse(a + b);
        { assert (a + b)[0] == a[0]; }
        " " + Collapse(TrimLeft(a + b));
        " " + Collapse(t + b);
        " " + (Collapse(t) + Collapse(b));
        (" " + Collapse(t)) + Collapse(b);
        Collapse(a) + Collapse(b);
      }
    } else {
      var rest := a[1..];
      CollapseAppend(rest, b);
      calc {
        Collapse(a + b);
        { assert (a + b)[0] == a[0] && (a + b)[1..] == rest + b; }
        [a[0]] + Collapse(rest + b);
        [a[0]] + (Collapse(rest) + Collapse(b));
        ([a[0]] + Collapse(rest)) + Collapse(b);
        Collapse(a) + Collapse(b);
      }
    }
  }

  /** `lstrip` of a text ending in a visible character keeps that last character. */
  lemma {:induction false} TrimLeftKeepsLast(a: string)
    requires a != [] && !IsSpace(a[|a| - 1])
    ensures !AllSpace(a)
    ensures TrimLeft(a) != [] && TrimLeft(a)[|TrimLeft(a)| - 1] == a[|a| - 1]
    decreases |a|
  {
    if IsSpace(a[0]) {
      TrimLeftKeepsLast(a[1..]);
    }
  }

  /**
   * `re.sub(r'\s+', ' ', ·)` keeps words apart: two texts joined by a whitespace
   * run, the first ending and the second starting with a visible character,
   * collapse to the two collapsed texts with exactly one space between them.
   */
  lemma WordBoundary(u: string, w: string, v: string)
    requires u == [] || !IsSpace(u[|u| - 1])
    requires w != [] && AllSpace(w) && (v == [] || !IsSpace(v[0]))
    ensures Collapse(u + w + v) == Collapse(u) + " " + Collapse(v)
  {
    calc {
      Collapse(u + w + v);
      { assert u + w + v == u + (w + v); }
      Collapse(u + (w + v));
      { CollapseAppend(u, w + v); }
      Collapse(u) + Collapse(w + v);
      { RunThen(w, v); }
      Collapse(u) + (" " + Collapse(v));
      Collapse(u) + " " + Collapse(v);
    }
  }

  /** One more character keeps a text single-spaced when it is no second space in a row. */
  lemma SingleSpacedCons(c: char, t: string)
    requires SingleSpaced(t) && (IsSpace(c) ==> c == ' ')
    requires c == ' ' && t != [] ==> t[0] != ' '
    ensures SingleSpaced([c] + t)
  {
    var r := [c] + t;
    forall i | 0 < i < |r|
      ensures r[i] == t[i - 1]
    {
    }
  }

  /** `re.sub(r'\s+', ' ', s).strip()`, the normalisation both the loader and the cleaner apply. */
  function Normalize(s: string): string {
    Strip(Collapse(s))
  }

  /** A normalised text is canonical and has the same visible characters as the input. */
  lemma NormalizeShape(s: string)
    ensures Canonical(Normalize(s))
    ensures Visible(Normalize(s)) == Visible(s)
  {
    CollapseShape(s);
    StripShape(Collapse(s));
    StripKeepsSingleSpaced(Collapse(s));
  }

  /** A text already in normal form is left unchanged: normalising is idempotent. */
  lemma NormalizeFixesCanonical(t: string)
    requires Canonical(t)
    ensures Normalize(t) == t
  {
    CollapseFixesSingleSpaced(t);
    assert Collapse(t) == t;
    assert t == [] || !IsSpace(t[0]);
    assert t == [] || !IsSpace(t[|t| - 1]);
  }

  lemma {:induction false} CollapseFixesSingleSpaced(t: string)
    requires SingleSpaced(t)
    ensures Collapse(t) == t
    decreases |t|
  {
    if t != [] {
      SingleSpacedSlice(t, 1, |t|);
      CollapseFixesSingleSpaced(t[1..]);
      if IsSpace(t[0]) {
        assert |t| > 1 ==> t[1] != ' ';
        assert TrimLeft(t) == t[1..];
      }
    }
  }

  /** A text normalises to the empty string exactly when it is all whitespace. */
  lemma NormalizeEmptyIff(s: string)
    ensures Normalize(s) == [] <==> AllSpace(s)
  {
    var r := Normalize(s);
    NormalizeShape(s);
    VisibleOfSpaces(s);
    VisibleOfSpaces(r);
    assert r != [] ==> !IsSpace(r[0]);
  }

  /** `s.endswith(suffix)` */
  predicate EndsWith(s: string, suffix: string) {
    |suffix| <= |s| && s[|s| - |suffix|..] == suffix
  }

  /** `s.startswith(prefix)` */
  predicate StartsWith(s: string, prefix: string) {
    |prefix| <= |s| && s[..|prefix|] == prefix
  }

  /** `sep` occurs in `s` at offset `i`. */
  predicate OccursAt(s: string, sep: string, i: nat) {
    i + |sep| <= |s| && s[i..i + |sep|] == sep
  }

  predicate Contains(s: string, sep: string) {
    exists i: nat :: i <= |s| && OccursAt(s, sep, i)
  }

  /** A single differing character rules an occurrence out. */
  lemma MismatchAt(s: string, sep: string, i: nat, d: nat)
    requires d < |sep| && i + d < |s| && s[i + d] != sep[d]
    ensures !OccursAt(s, sep, i)
  {
    if i + |sep| <= |s| {
      assert s[i..i + |sep|][d] != sep[d];
    }
  }

  /** An occurrence starts with the separator's first character. */
  lemma OccursAtFirst(s: string, sep: string, i: nat)
    requires sep != []
    ensures OccursAt(s, sep, i) ==> i < |s| && s[i] == sep[0]
  {
    if OccursAt(s, sep, i) {
      assert s[i..i + |sep|][0] == s[i];
    }
  }

  /** A text starting with a non-empty prefix starts with its first character. */
  lemma StartsWithFirst(s: string, prefix: string)
    requires prefix != []
    ensures StartsWith(s, prefix) ==> s != [] && s[0] == prefix[0]
  {
    if StartsWith(s, prefix) {
      assert s[..|prefix|][0] == s[0];
    }
  }

  /** A slice starting at `i` starts with `p` exactly when `p` occurs at `i` and fits in the slice. */
  lemma StartsWithSlice(s: string, i: nat, n: nat, p: string)
    requires i + n <= |s|
    ensures StartsWith(s[i..i + n], p) <==> |p| <= n && OccursAt(s, p, i)
  {
    if |p| <= n {
      assert s[i..i + n][..|p|] == s[i..i + |p|];
    }
  }

  /** A slice of a slice is a slice. */
  lemma SliceOfSlice(s: string, i: nat, n: nat, a: nat, b: nat)
    requires i + n <= |s| && a <= b <= n
    ensures s[i..i + n][a..b] == s[i + a..i + b]
  {
    var t := s[i..i + n];
    forall k | 0 <= k < b - a
      ensures t[a..b][k] == s[i + a..i + b][k]
    {
      assert t[a..b][k] == t[a + k] == s[i + a + k];
    }
  }

  /** An occurrence inside a slice is an occurrence in the whole text, shifted by the slice's start. */
  lemma OccursInSlice(s: string, sep: string, a: nat, b: nat, q: nat)
    requires a <= b <= |s|
    ensures OccursAt(s[a..b], sep, q) <==> q + |sep| <= b - a && OccursAt(s, sep, a + q)
  {
    if q + |sep| <= b - a {
      SliceOfSlice(s, a, b - a, q, q + |sep|);
    }
  }

  /** `s.find(sep, from)`: the first offset at or after `from` where `sep` occurs. */
  function FindFrom(s: string, sep: string, from: nat): (r: Option<nat>)
    requires sep != [] && from <= |s|
    decreases |s| - from
    ensures r.Some? ==> from <= r.value && r.value + |sep| <= |s|
  {
    if from + |sep| > |s| then None
    else if s[from..from + |sep|] == sep then Some(from)
    else FindFrom(s, sep, from + 1)
  }

  /** `find` returns an occurrence, and there is none between `from` and it (or at all, when it returns nothing). */
  lemma {:induction false} FindFromSpec(s: string, sep: string, from: nat)
    requires sep != [] && from <= |s|
    ensures var r := FindFrom(s, sep, from);
      && (r.Some? ==> OccursAt(s, sep, r.value))
      && forall i: nat :: from <= i && (r.None? || i < r.value) ==> !OccursAt(s, sep, i)
    decreases |s| - from
  {
    if from + |sep| <= |s| && s[from..from + |sep|] != sep {
      FindFromSpec(s, sep, from + 1);
    }
  }

  /** An occurrence with none before it (from `from` on) is the one `find` returns. */
  lemma FindFromFirst(s: string, sep: string, from: nat, p: nat)
    requires sep != [] && from <= p && OccursAt(s, sep, p)
    requires forall i: nat :: from <= i < p ==> !OccursAt(s, sep, i)
    ensures FindFrom(s, sep, from) == Some(p)
  {
    FindFromSpec(s, sep, from);
  }

  /** Searching from an earlier offset finds something whenever searching from a later one does. */
  lemma FindFromMonotone(s: string, sep: string, a: nat, b: nat)
    requires sep != [] && a <= b <= |s|
    ensures FindFrom(s, sep, b).Some? ==> FindFrom(s, sep, a).Some?
  {
    FindFromSpec(s, sep, a);
    FindFromSpec(s, sep, b);
  }

  /** `find` from offset 0 fails exactly when `sep` does not occur. */
  lemma FindContains(s: string, sep: string)
    requires sep != []
    ensures FindFrom(s, sep, 0).Some? <==> Contains(s, sep)
  {
    FindFromSpec(s, sep, 0);
    if FindFrom(s, sep, 0).Some? {
      assert OccursAt(s, sep, FindFrom(s, sep, 0).value);
    }
  }

  /** `s.split(sep)`: the pieces between the non-overlapping occurrences of `sep`, left to right. */
  function Split(s: string, sep: string): (parts: seq<string>)
    requires sep != []
    decreases |s|
    ensures |parts| >= 1
  {
    match FindFrom(s, sep, 0)
    case None => [s]
    case Some(i) => [s[..i]] + Split(s[i + |sep|..], sep)
  }

  /** `sep.join(parts)` */
  function Join(parts: seq<string>, sep: string): string {
    if |parts| == 0 then ""
    else if |parts| == 1 then parts[0]
    else parts[0] + sep + Join(parts[1..], sep)
  }

  lemma NoOccurrenceInPrefix(s: string, sep: string, n: nat)
    requires sep != [] && n <= |s|
    requires forall i: nat :: i < n ==> !OccursAt(s, sep, i)
    ensures !Contains(s[..n], sep)
  {
    forall i: nat | OccursAt(s[..n], sep, i)
      ensures false
    {
      assert s[..n][i..i + |sep|] == s[i..i + |sep|];
      assert OccursAt(s, sep, i);
    }
  }

  /** A slice contains `sep` only where `s` itself has an occurrence starting inside the slice. */
  lemma NoOccurrenceInSlice(s: string, sep: string, a: nat, b: nat)
    requires sep != [] && a <= b <= |s|
    requires forall i: nat :: a <= i < b ==> !OccursAt(s, sep, i)
    ensures !Contains(s[a..b], sep)
  {
    var t := s[a..b];
    forall q: nat | OccursAt(t, sep, q)
      ensures false
    {
      assert q + |sep| <= b - a;
      var u, v := t[q..q + |sep|], s[a + q..a + q + |sep|];
      forall m | 0 <= m < |sep|
        ensures u[m] == v[m]
      {
        assert t[q + m] == s[a + q + m];
      }
      assert u == v;
      assert OccursAt(s, sep, a + q);
    }
  }

  /** No piece of a split contains the separator. */
  lemma {:induction false} SplitPieces(s: string, sep: string)
    requires sep != []
    ensures forall k :: 0 <= k < |Split(s, sep)| ==> !Contains(Split(s, sep)[k], sep)
    decreases |s|
  {
    FindFromSpec(s, sep, 0);
    match FindFrom(s, sep, 0)
    case None =>
      NoOccurrenceInPrefix(s, sep, |s|);
      assert s[..|s|] == s;
    case Some(i) =>
      NoOccurrenceInPrefix(s, sep, i);
      SplitPieces(s[i + |sep|..], sep);
  }

  /** Joining a part in front of a non-empty list puts the separator between them. */
  lemma JoinCons(head: string, tail: seq<string>, sep: string)
    requires |tail| >= 1
    ensures Join([head] + tail, sep) == head + sep + Join(tail, sep)
  {
    assert ([head] + tail)[1..] == tail;
  }

  /** Joining the pieces of a split with the same separator gives back the text. */
  lemma {:induction false} JoinSplit(s: string, sep: string)
    requires sep != []
    ensures Join(Split(s, sep), sep) == s
    decreases |s|
  {
    FindFromSpec(s, sep, 0);
    match FindFrom(s, sep, 0)
    case None =>
    case Some(i) =>
      var pre, rest := s[..i], s[i + |sep|..];
      JoinSplit(rest, sep);
      JoinCons(pre, Split(rest, sep), sep);
      assert s == pre + s[i..i + |sep|] + rest;
  }

  /** No occurrence of `sep` starts inside the first part of a join when that part lacks `sep[0]`. */
  lemma JoinNoEarlyOccurrence(parts: seq<string>, sep: string)
    requires sep != [] && |parts| >= 1 && sep[0] !in parts[0]
    ensures forall i: nat :: i < |parts[0]| ==> !OccursAt(Join(parts, sep), sep, i)
  {
    var s, p := Join(parts, sep), parts[0];
    JoinStartsWith(parts, sep);
    forall i: nat | i < |p|
      ensures !OccursAt(s, sep, i)
    {
      assert s[i] == p[i];
      MismatchAt(s, sep, i, 0);
    }
  }

  /** The first separator in a join of several parts sits right after the first part. */
  lemma JoinFirstSeparator(parts: seq<string>, sep: string)
    requires sep != [] && |parts| >= 2 && sep[0] !in parts[0]
    ensures var s, p := Join(parts, sep), parts[0];
      && FindFrom(s, sep, 0) == Some(|p|)
      && s[..|p|] == p
      && s[|p| + |sep|..] == Join(parts[1..], sep)
  {
    var s, p, rest := Join(parts, sep), parts[0], Join(parts[1..], sep);
    assert s == p + sep + rest;
    assert s[|p|..|p| + |sep|] == sep;
    JoinNoEarlyOccurrence(parts, sep);
    FindFromFirst(s, sep, 0, |p|);
    assert s[..|p|] == p;
    assert s[|p| + |sep|..] == rest;
  }

  /** A join of one part without `sep[0]` holds no separator. */
  lemma JoinOneNoSeparator(parts: seq<string>, sep: string)
    requires sep != [] && |parts| == 1 && sep[0] !in parts[0]
    ensures FindFrom(Join(parts, sep), sep, 0).None?
  {
    var s := Join(parts, sep);
    JoinNoEarlyOccurrence(parts, sep);
    FindFromSpec(s, sep, 0);
  }

  /**
   * Splitting a join gives back the parts when no part holds the separator's
   * first character, so no occurrence can start inside a part.
   */
  lemma {:induction false} SplitJoin(parts: seq<string>, sep: string)
    requires sep != [] && |parts| >= 1
    requires forall k :: 0 <= k < |parts| ==> sep[0] !in parts[k]
    ensures Split(Join(parts, sep), sep) == parts
    decreases |parts|
  {
    if |parts| == 1 {
      JoinOneNoSeparator(parts, sep);
    } else {
      JoinFirstSeparator(parts, sep);
      SplitJoin(parts[1..], sep);
      assert parts == [parts[0]] + parts[1..];
    }
  }

  /** The join begins with the first part. */
  lemma JoinStartsWith(parts: seq<string>, sep: string)
    requires |parts| >= 1
    ensures |Join(parts, sep)| >= |parts[0]|
    ensures Join(parts, sep)[..|parts[0]|] == parts[0]
  {
    if |parts| > 1 {
      assert Join(parts, sep) == parts[0] + (sep + Join(parts[1..], sep));
    }
  }
}

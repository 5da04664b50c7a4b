/**
 * The corpus loader of rag.py (`load_txt_files`): every `.txt` document is
 * split into paragraphs on blank lines, each paragraph is normalised, and each
 * non-empty paragraph is cut by a sliding window into chunks. The loader
 * returns two parallel lists, the chunk texts and the name of the file each
 * chunk was cut from.
 */
module Chunker {
  import opened Wrappers
  import opened Text

  /** A document as the folder listing delivers it: its file name and contents. */
  datatype Document = Document(name: string, text: string)

  /** `range(0, n, 0)` raises: the window stride `chunk_size - overlap` is zero. */
  datatype ConfigError = ZeroStride

  /** The loader's two parallel lists `docs` and `file_names`. */
  datatype Corpus = Corpus(docs: seq<string>, fileNames: seq<string>)

  const ParagraphBreak := "\n\n"

  function Min(a: int, b: int): int {
    if a <= b then a else b
  }

  predicate IsTxt(name: string) {
    EndsWith(name, ".txt")
  }

  /** `[t[i:i + width] for i in range(start, len(t), stride)]` */
  function WindowsFrom(t: string, start: nat, width: nat, stride: nat): seq<string>
    requires stride > 0
    decreases |t| - start
  {
    if start >= |t| then []
    else [t[start..Min(start + width, |t|)]] + WindowsFrom(t, start + stride, width, stride)
  }

  /**
   * The chunk comprehension of the loader for one cleaned paragraph `t`.
   * A zero stride raises; a negative stride makes the range empty.
   */
  function Windows(t: string, width: nat, overlap: nat): Result<seq<string>, ConfigError> {
    if overlap == width then Failure(ZeroStride)
    else if overlap > width then Success([])
    else Success(WindowsFrom(t, 0, width, width - overlap))
  }

  /** Window `j` starts at `start + j * stride` and ends `width` later, or at the end of `t`. */
  lemma {:induction false} WindowAt(t: string, start: nat, width: nat, stride: nat, j: nat, offset: nat)
    requires stride > 0 && j < |WindowsFrom(t, start, width, stride)|
    requires offset == start + j * stride
    ensures offset < |t|
    ensures WindowsFrom(t, start, width, stride)[j] == t[offset..Min(offset + width, |t|)]
    decreases j
  {
    if j > 0 {
      MulStep(j - 1, stride);
      WindowAt(t, start + stride, width, stride, j - 1, offset);
    }
  }

  /** The windows reach the end of `t`: one more stride would start past it. */
  lemma {:induction false} WindowsCover(t: string, start: nat, width: nat, stride: nat)
    requires stride > 0
    ensures |t| <= start + |WindowsFrom(t, start, width, stride)| * stride
    decreases |t| - start
  {
    if start < |t| {
      var rest := WindowsFrom(t, start + stride, width, stride);
      WindowsCover(t, start + stride, width, stride);
      MulStep(|rest|, stride);
    }
  }

  lemma MulStep(j: int, s: int)
    ensures (j + 1) * s == j * s + s
  {
  }

  lemma MulMonotone(a: int, b: int, s: nat)
    ensures a <= b ==> a * s <= b * s
  {
    if a <= b {
      assert b * s == a * s + (b - a) * s;
    }
  }

  /**
   * With `0 <= overlap < width` and stride `s = width - overlap`, chunk `j` of
   * a text of length `L` is `t[j*s .. min(j*s + width, L)]`: it is non-empty
   * and at most `width` long.
   */
  lemma WindowsChunks(t: string, width: nat, overlap: nat)
    requires overlap < width
    ensures Windows(t, width, overlap).Success?
    ensures var r := Windows(t, width, overlap).value; var s := width - overlap;
      forall j :: 0 <= j < |r| ==>
        && j * s < |t|
        && r[j] == t[j * s..Min(j * s + width, |t|)]
        && 0 < |r[j]| <= width
  {
    var s := width - overlap;
    var r := WindowsFrom(t, 0, width, s);
    forall j | 0 <= j < |r|
      ensures j * s < |t| && r[j] == t[j * s..Min(j * s + width, |t|)] && 0 < |r[j]| <= width
    {
      WindowAt(t, 0, width, s, j, j * s);
    }
  }

  /** A text of length `L` yields `ceil(L / s)` chunks, where `s = width - overlap`. */
  lemma WindowsCount(t: string, width: nat, overlap: nat)
    requires overlap < width
    ensures var s := width - overlap;
      |Windows(t, width, overlap).value| == (|t| + s - 1) / s
  {
    var s := width - overlap;
    var n := |WindowsFrom(t, 0, width, s)|;
    WindowsCover(t, 0, width, s);
    if n > 0 {
      WindowAt(t, 0, width, s, n - 1, (n - 1) * s);
    }
    CeilDiv(|t|, s, n);
  }

  /**
   * Windows keep being cut until one starts past the end, even after a window
   * has already reached the end: every window after such a window is its own
   * tail, a copy of text already indexed.
   */
  lemma WindowsRedundantTail(t: string, width: nat, overlap: nat, j: nat)
    requires overlap < width
    requires j + 1 < |Windows(t, width, overlap).value|
    requires j * (width - overlap) + width >= |t|
    ensures var r := Windows(t, width, overlap).value;
      |r[j]| >= width - overlap && r[j + 1] == r[j][width - overlap..]
  {
    var s := width - overlap;
    var r := WindowsFrom(t, 0, width, s);
    var a := j * s;
    MulStep(j, s);
    WindowAt(t, 0, width, s, j, a);
    WindowAt(t, 0, width, s, j + 1, a + s);
    assert r[j] == t[a..|t|];
    assert r[j + 1] == t[a + s..|t|];
    assert t[a..|t|][s..] == t[a + s..|t|];
  }

  /** A paragraph of 401 characters under the default window gives the whole paragraph and then its last character again. */
  lemma DefaultWindowTail(t: string)
    requires |t| == 401
    ensures Windows(t, 500, 100) == Success([t, t[400..]])
  {
    WindowsChunks(t, 500, 100);
    WindowsCount(t, 500, 100);
    var r := Windows(t, 500, 100).value;
    assert |r| == 2;
    assert r[0] == t[0..401] == t;
    assert r[1] == t[400..401];
    assert r == [t, t[400..]];
  }

  /** `n` is `ceil(L / s)` when `(n - 1) * s < L <= n * s`. */
  lemma CeilDiv(L: nat, s: nat, n: nat)
    requires s > 0
    requires L <= n * s
    requires n > 0 ==> (n - 1) * s < L
    requires n == 0 ==> L == 0
    ensures n == (L + s - 1) / s
  {
    var q := (L + s - 1) / s;
    assert q * s <= L + s - 1 < q * s + s;
    MulStep(q, s);
    MulStep(n, s);
    MulStep(n - 1, s);
    MulMonotone(q + 1, n, s);
    MulMonotone(n + 1, q, s);
  }

  /** The first `stride` characters of each chunk, concatenated. */
  function Reassemble(chunks: seq<string>, stride: nat): string {
    if chunks == [] then ""
    else chunks[0][..Min(stride, |chunks[0]|)] + Reassemble(chunks[1..], stride)
  }

  lemma {:induction false} ReassembleFrom(t: string, start: nat, width: nat, stride: nat)
    requires 0 < stride <= width && start <= |t|
    ensures Reassemble(WindowsFrom(t, start, width, stride), stride) == t[start..]
    decreases |t| - start
  {
    if start < |t| {
      var c := t[start..Min(start + width, |t|)];
      var rest := WindowsFrom(t, start + stride, width, stride);
      var e := Min(start + stride, |t|);
      ReassembleCons(c, rest, stride);
      assert c[..Min(stride, |c|)] == t[start..e];
      if start + stride <= |t| {
        ReassembleFrom(t, start + stride, width, stride);
        assert t[start..] == t[start..e] + t[e..];
      } else {
        assert rest == [] && e == |t|;
        assert t[start..e] + "" == t[start..];
      }
    }
  }

  /** The first chunk contributes its first `stride` characters, the rest reassemble on their own. */
  lemma ReassembleCons(c: string, rest: seq<string>, stride: nat)
    ensures Reassemble([c] + rest, stride) == c[..Min(stride, |c|)] + Reassemble(rest, stride)
  {
    assert ([c] + rest)[0] == c && ([c] + rest)[1..] == rest;
  }


  /** Concatenating the first `stride` characters of every chunk reproduces the paragraph. */
  lemma WindowsReassemble(t: string, width: nat, overlap: nat)
    requires overlap < width
    ensures Reassemble(Windows(t, width, overlap).value, width - overlap) == t
  {
    ReassembleFrom(t, 0, width, width - overlap);
  }

  /** A full-length chunk ends with the `overlap` characters the next chunk starts with. */
  lemma WindowsOverlap(t: string, width: nat, overlap: nat, j: nat)
    requires overlap < width
    requires j + 1 < |Windows(t, width, overlap).value|
    requires |Windows(t, width, overlap).value[j]| == width
    ensures var r := Windows(t, width, overlap).value;
      overlap <= |r[j + 1]| && r[j][width - overlap..] == r[j + 1][..overlap]
  {
    var s := width - overlap;
    var r := WindowsFrom(t, 0, width, s);
    var a := j * s;
    WindowAt(t, 0, width, s, j, a);
    WindowNext(t, 0, width, s, j, a);
    SliceOverlap(t, a, a + s, width, overlap, r[j], r[j + 1]);
  }

  /** The window after the one at `offset` starts one stride later. */
  lemma WindowNext(t: string, start: nat, width: nat, stride: nat, j: nat, offset: nat)
    requires stride > 0 && j + 1 < |WindowsFrom(t, start, width, stride)|
    requires offset == start + j * stride
    ensures offset + stride < |t|
    ensures WindowsFrom(t, start, width, stride)[j + 1] == t[offset + stride..Min(offset + stride + width, |t|)]
  {
    WindowAt(t, start + stride, width, stride, j, offset + stride);
  }

  lemma SliceOverlap(t: string, a: nat, b: nat, width: nat, overlap: nat, x: string, y: string)
    requires a <= b && b + overlap == a + width && a + width <= |t|
    requires x == t[a..Min(a + width, |t|)] && y == t[b..Min(b + width, |t|)]
    ensures overlap <= |y| && x[b - a..] == y[..overlap]
  {
    assert Min(a + width, |t|) == a + width;
    assert x == t[a..a + width] && |x| == width;
    var e := Min(b + width, |t|);
    assert b + overlap <= e;
    assert x[b - a..] == t[b..a + width];
    assert y[..overlap] == t[b..b + overlap];
  }

  /** The paragraphs of a document, each normalised: `re.sub(r'\s+', ' ', para).strip()` for `para in text.split("\n\n")`. */
  function CleanParagraphs(text: string): (r: seq<string>)
    ensures |r| == |Split(text, ParagraphBreak)|
  {
    var paras := Split(text, ParagraphBreak);
    seq(|paras|, k requires 0 <= k < |paras| => Normalize(paras[k]))
  }

  /** What one normalised paragraph contributes: nothing when it is empty. */
  function ParagraphChunks(cleaned: string, width: nat, overlap: nat): Result<seq<string>, ConfigError> {
    if |cleaned| > 0 then Windows(cleaned, width, overlap) else Success([])
  }

  /** The chunks of a sequence of normalised paragraphs, in order; the first failure stops the loader. */
  function ChunksOf(paras: seq<string>, width: nat, overlap: nat): Result<seq<string>, ConfigError>
    decreases |paras|
  {
    if paras == [] then Success([])
    else
      match ChunksOf(paras[..|paras| - 1], width, overlap)
      case Failure(e) => Failure(e)
      case Success(prev) =>
        match ParagraphChunks(paras[|paras| - 1], width, overlap)
        case Failure(e) => Failure(e)
        case Success(cs) => Success(prev + cs)
  }

  /** The chunks cut from one document's text. */
  function FileChunks(text: string, width: nat, overlap: nat): Result<seq<string>, ConfigError> {
    ChunksOf(CleanParagraphs(text), width, overlap)
  }

  /** One step of the loader's outer loop: a `.txt` file appends its chunks and, for each, its name. */
  function WithFile(prev: Corpus, file: Document, width: nat, overlap: nat): Result<Corpus, ConfigError> {
    if !IsTxt(file.name) then Success(prev)
    else
      match FileChunks(file.text, width, overlap)
      case Failure(e) => Failure(e)
      case Success(cs) => Success(Corpus(prev.docs + cs, prev.fileNames + Repeat(file.name, |cs|)))
  }

  /** The result of `load_txt_files` over the listed documents, in listing order. */
  function LoadSpec(files: seq<Document>, width: nat, overlap: nat): Result<Corpus, ConfigError>
    decreases |files|
  {
    if files == [] then Success(Corpus([], []))
    else
      match LoadSpec(files[..|files| - 1], width, overlap)
      case Failure(e) => Failure(e)
      case Success(prev) => WithFile(prev, files[|files| - 1], width, overlap)
  }

  /** `chunk` is one of the windows of some normalised paragraph of `text`. */
  predicate CutFrom(chunk: string, text: string, width: nat, overlap: nat) {
    var cleaned := CleanParagraphs(text);
    exists k :: 0 <= k < |cleaned| && ParagraphChunks(cleaned[k], width, overlap).Success?
      && chunk in ParagraphChunks(cleaned[k], width, overlap).value
  }

  /** Some paragraph of `text` is not blank. */
  predicate HasText(text: string) {
    exists para :: para in Split(text, ParagraphBreak) && !AllSpace(para)
  }

  /** A chunk as the index receives it: non-empty, within the window, single-spaced. */
  predicate WellFormedChunk(chunk: string, width: nat) {
    0 < |chunk| <= width && SingleSpaced(chunk)
  }

  /** A text has a non-blank paragraph exactly when one of its normalised paragraphs is non-empty. */
  lemma HasTextIff(text: string)
    ensures HasText(text) <==> exists k :: 0 <= k < |CleanParagraphs(text)| && CleanParagraphs(text)[k] != []
  {
    var paras := Split(text, ParagraphBreak);
    var cleaned := CleanParagraphs(text);
    forall k | 0 <= k < |paras|
      ensures cleaned[k] == [] <==> AllSpace(paras[k])
    {
      NormalizeEmptyIff(paras[k]);
    }
    if HasText(text) {
      var para :| para in paras && !AllSpace(para);
      var k :| 0 <= k < |paras| && paras[k] == para;
      assert cleaned[k] != [];
    }
  }

  /** Every normalised paragraph is canonical. */
  lemma CleanParagraphsCanonical(text: string)
    ensures forall k :: 0 <= k < |CleanParagraphs(text)| ==> Canonical(CleanParagraphs(text)[k])
  {
    var paras := Split(text, ParagraphBreak);
    forall k | 0 <= k < |paras|
      ensures Canonical(CleanParagraphs(text)[k])
    {
      NormalizeShape(paras[k]);
    }
  }

  /**
   * An empty paragraph contributes no chunks; a paragraph fails exactly when the
   * stride is zero and it is not empty; every chunk of a canonical paragraph is well formed.
   */
  lemma ParagraphChunksShape(cleaned: string, width: nat, overlap: nat)
    requires SingleSpaced(cleaned)
    ensures cleaned == [] ==> ParagraphChunks(cleaned, width, overlap) == Success([])
    ensures ParagraphChunks(cleaned, width, overlap).Failure? <==> width == overlap && cleaned != []
    ensures ParagraphChunks(cleaned, width, overlap).Success? ==>
      forall c :: c in ParagraphChunks(cleaned, width, overlap).value ==> WellFormedChunk(c, width)
  {
    if |cleaned| > 0 && overlap < width {
      var s := width - overlap;
      var r := WindowsFrom(cleaned, 0, width, s);
      assert ParagraphChunks(cleaned, width, overlap) == Success(r);
      forall c | c in r
        ensures WellFormedChunk(c, width)
      {
        var j :| 0 <= j < |r| && r[j] == c;
        var a := j * s;
        WindowAt(cleaned, 0, width, s, j, a);
        SingleSpacedSlice(cleaned, a, Min(a + width, |cleaned|));
      }
    }
  }

  /** A failure in a prefix of the paragraphs is a failure of the whole file. */
  lemma {:induction false} ChunksOfPrefixFailure(paras: seq<string>, n: nat, width: nat, overlap: nat)
    requires n <= |paras|
    requires ChunksOf(paras[..n], width, overlap).Failure?
    ensures ChunksOf(paras, width, overlap).Failure?
    decreases |paras| - n
  {
    if n < |paras| {
      assert paras[..n + 1][..n] == paras[..n];
      ChunksOfPrefixFailure(paras, n + 1, width, overlap);
    } else {
      assert paras[..n] == paras;
    }
  }

  /** A file fails exactly when the stride is zero and one of its paragraphs is not empty. */
  lemma {:induction false} ChunksOfFailure(paras: seq<string>, width: nat, overlap: nat)
    ensures ChunksOf(paras, width, overlap).Failure? <==>
      width == overlap && exists k :: 0 <= k < |paras| && paras[k] != []
    decreases |paras|
  {
    if paras != [] {
      var init := paras[..|paras| - 1];
      ChunksOfFailure(init, width, overlap);
      if exists k :: 0 <= k < |init| && init[k] != [] {
        var k :| 0 <= k < |init| && init[k] != [];
        assert paras[k] == init[k];
      }
      if exists k :: 0 <= k < |paras| && paras[k] != [] {
        var k :| 0 <= k < |paras| && paras[k] != [];
        if k < |init| {
          assert init[k] == paras[k];
        }
      }
    }
  }

  /** Every chunk of a file is a well-formed window of one of its paragraphs. */
  lemma {:induction false} ChunksOfProvenance(paras: seq<string>, width: nat, overlap: nat)
    requires forall k :: 0 <= k < |paras| ==> SingleSpaced(paras[k])
    requires ChunksOf(paras, width, overlap).Success?
    ensures forall c :: c in ChunksOf(paras, width, overlap).value ==>
      WellFormedChunk(c, width) &&
      exists k :: 0 <= k < |paras| && ParagraphChunks(paras[k], width, overlap).Success?
        && c in ParagraphChunks(paras[k], width, overlap).value
    decreases |paras|
  {
    if paras != [] {
      var n := |paras| - 1;
      var init := paras[..n];
      ChunksOfProvenance(init, width, overlap);
      ParagraphChunksShape(paras[n], width, overlap);
      forall c | c in ChunksOf(paras, width, overlap).value
        ensures WellFormedChunk(c, width) &&
          exists k :: 0 <= k < |paras| && ParagraphChunks(paras[k], width, overlap).Success?
            && c in ParagraphChunks(paras[k], width, overlap).value
      {
        if c in ChunksOf(init, width, overlap).value {
          var k :| 0 <= k < |init| && ParagraphChunks(init[k], width, overlap).Success?
            && c in ParagraphChunks(init[k], width, overlap).value;
          assert paras[k] == init[k];
        } else {
          assert c in ParagraphChunks(paras[n], width, overlap).value;
        }
      }
    }
  }

  /** A canonical text is one paragraph, which normalising leaves as it is. */
  lemma OneCanonicalParagraph(text: string)
    requires Canonical(text)
    ensures CleanParagraphs(text) == [text]
  {
    CanonicalFacts(text);
    SplitJoin([text], ParagraphBreak);
    NormalizeFixesCanonical(text);
  }

  /** A paragraph no longer than one stride is a single chunk. */
  lemma ShortParagraph(t: string, width: nat, overlap: nat)
    requires overlap < width && 0 < |t| <= width - overlap
    ensures ParagraphChunks(t, width, overlap) == Success([t])
  {
    var stride := width - overlap;
    assert Min(0 + width, |t|) == |t|;
    assert t[0..|t|] == t;
    assert WindowsFrom(t, 0 + stride, width, stride) == [];
    assert WindowsFrom(t, 0, width, stride) == [t] + WindowsFrom(t, 0 + stride, width, stride);
    assert Windows(t, width, overlap) == Success(WindowsFrom(t, 0, width, stride));
    assert ParagraphChunks(t, width, overlap) == Windows(t, width, overlap);
    assert WindowsFrom(t, 0, width, stride) == [t];
  }

  /** A single paragraph contributes its own chunks. */
  lemma ChunksOfOne(p: string, width: nat, overlap: nat)
    ensures ChunksOf([p], width, overlap) == ParagraphChunks(p, width, overlap)
  {
    assert [p][..0] == [];
    var none: seq<string> := [];
    assert ChunksOf([p][..0], width, overlap) == Success(none);
    if ParagraphChunks(p, width, overlap).Success? {
      assert none + ParagraphChunks(p, width, overlap).value == ParagraphChunks(p, width, overlap).value;
    }
  }

  /** Loading a single `.txt` file yields its chunks, each tagged with its name. */
  lemma LoadOne(file: Document, width: nat, overlap: nat)
    requires IsTxt(file.name) && FileChunks(file.text, width, overlap).Success?
    ensures var cs := FileChunks(file.text, width, overlap).value;
      LoadSpec([file], width, overlap) == Success(Corpus(cs, Repeat(file.name, |cs|)))
  {
    assert [file][..0] == [];
    var cs := FileChunks(file.text, width, overlap).value;
    var none: seq<string> := [];
    assert none + cs == cs;
    assert none + Repeat(file.name, |cs|) == Repeat(file.name, |cs|);
  }

  /** A failure on an earlier file is a failure of the whole load. */
  lemma {:induction false} LoadSpecPrefixFailure(files: seq<Document>, n: nat, width: nat, overlap: nat)
    requires n <= |files|
    requires LoadSpec(files[..n], width, overlap).Failure?
    ensures LoadSpec(files, width, overlap).Failure?
    decreases |files| - n
  {
    if n < |files| {
      assert files[..n + 1][..n] == files[..n];
      LoadSpecPrefixFailure(files, n + 1, width, overlap);
    } else {
      assert files[..n] == files;
    }
  }

  /**
   * The alignment invariant: `docs` and `file_names` have the same length and
   * `file_names[i]` is the `.txt` file whose paragraph `docs[i]` was cut from;
   * every chunk is well formed.
   */
  lemma {:induction false} LoadAlignment(files: seq<Document>, width: nat, overlap: nat)
    requires LoadSpec(files, width, overlap).Success?
    ensures var c := LoadSpec(files, width, overlap).value;
      && |c.docs| == |c.fileNames|
      && forall i :: 0 <= i < |c.docs| ==>
           && WellFormedChunk(c.docs[i], width)
           && exists k :: 0 <= k < |files| && IsTxt(files[k].name) && c.fileNames[i] == files[k].name
                && CutFrom(c.docs[i], files[k].text, width, overlap)
    decreases |files|
  {
    if files != [] {
      var n := |files| - 1;
      var init, file := files[..n], files[n];
      LoadAlignment(init, width, overlap);
      var prev := LoadSpec(init, width, overlap).value;
      var c := LoadSpec(files, width, overlap).value;
      var cs: seq<string> := [];
      if IsTxt(file.name) {
        cs := FileChunks(file.text, width, overlap).value;
        WithTxtFile(prev, file, width, overlap, cs);
        CleanParagraphsCanonical(file.text);
        ChunksOfProvenance(CleanParagraphs(file.text), width, overlap);
      }
      assert c.docs == prev.docs + cs && c.fileNames == prev.fileNames + Repeat(file.name, |cs|);
      forall i | 0 <= i < |c.docs|
        ensures WellFormedChunk(c.docs[i], width)
        ensures exists k ::
                  0 <= k < |files| && IsTxt(files[k].name) && c.fileNames[i] == files[k].name
                  && CutFrom(c.docs[i], files[k].text, width, overlap)
      {
        if i < |prev.docs| {
          var k :|
            0 <= k < |init| && IsTxt(init[k].name) && prev.fileNames[i] == init[k].name
            && CutFrom(prev.docs[i], init[k].text, width, overlap);
          assert c.docs[i] == prev.docs[i] && c.fileNames[i] == prev.fileNames[i];
          assert files[k] == init[k];
        } else {
          var d := c.docs[i];
          assert d == cs[i - |prev.docs|] && d in cs;
          assert c.fileNames[i] == file.name;
          assert CutFrom(d, file.text, width, overlap);
          assert IsTxt(files[n].name) && c.fileNames[i] == files[n].name && CutFrom(d, files[n].text, width, overlap);
        }
      }
    }
  }


  /**
   * Loading fails exactly when the stride is zero and some `.txt` file has a
   * non-blank paragraph: the error surfaces only once a window is cut.
   */
  lemma {:induction false} LoadFailure(files: seq<Document>, width: nat, overlap: nat)
    ensures LoadSpec(files, width, overlap).Failure? <==>
      width == overlap && exists k :: 0 <= k < |files| && IsTxt(files[k].name) && HasText(files[k].text)
    decreases |files|
  {
    if files != [] {
      var n := |files| - 1;
      var init, file := files[..n], files[n];
      LoadFailure(init, width, overlap);
      FileChunksFailure(file.text, width, overlap);
      assert LoadSpec(files, width, overlap).Failure? <==>
        LoadSpec(init, width, overlap).Failure? || (IsTxt(file.name) && FileChunks(file.text, width, overlap).Failure?);
      SomeTextSnoc(files);
    }
  }

  /** Some listed `.txt` document has text exactly when the earlier ones do or the last one does. */
  lemma SomeTextSnoc(files: seq<Document>)
    requires files != []
    ensures var n := |files| - 1;
      (exists k :: 0 <= k < |files| && IsTxt(files[k].name) && HasText(files[k].text)) <==>
      (exists k :: 0 <= k < n && IsTxt(files[..n][k].name) && HasText(files[..n][k].text))
      || (IsTxt(files[n].name) && HasText(files[n].text))
  {
    var n := |files| - 1;
    if exists k :: 0 <= k < |files| && IsTxt(files[k].name) && HasText(files[k].text) {
      var k :| 0 <= k < |files| && IsTxt(files[k].name) && HasText(files[k].text);
      if k < n {
        assert files[..n][k] == files[k];
      }
    }
    if exists k :: 0 <= k < n && IsTxt(files[..n][k].name) && HasText(files[..n][k].text) {
      var k :| 0 <= k < n && IsTxt(files[..n][k].name) && HasText(files[..n][k].text);
      assert files[k] == files[..n][k];
    }
  }

  /** One document's chunking fails exactly when the stride is zero and it has a non-blank paragraph. */
  lemma FileChunksFailure(text: string, width: nat, overlap: nat)
    ensures FileChunks(text, width, overlap).Failure? <==> width == overlap && HasText(text)
  {
    ChunksOfFailure(CleanParagraphs(text), width, overlap);
    HasTextIff(text);
  }

  /** An overlap larger than the chunk size silently yields an empty corpus. */
  lemma {:induction false} LoadOverlapTooLarge(files: seq<Document>, width: nat, overlap: nat)
    requires overlap > width
    ensures LoadSpec(files, width, overlap) == Success(Corpus([], []))
    decreases |files|
  {
    if files != [] {
      LoadOverlapTooLarge(files[..|files| - 1], width, overlap);
      var file := files[|files| - 1];
      assert files[..|files| - 1] + [file] == files;
      if IsTxt(file.name) {
        ChunksOfEmpty(CleanParagraphs(file.text), width, overlap);
        var none: seq<string> := [];
        assert none + none == none;
        assert Repeat(file.name, 0) == none;
      }
    }
  }

  lemma {:induction false} ChunksOfEmpty(paras: seq<string>, width: nat, overlap: nat)
    requires overlap > width
    ensures ChunksOf(paras, width, overlap) == Success([])
    decreases |paras|
  {
    if paras != [] {
      ChunksOfEmpty(paras[..|paras| - 1], width, overlap);
      var none: seq<string> := [];
      assert none + none == none;
    }
  }

  /**
   * `load_txt_files`: the outer loop over the listed documents; each `.txt`
   * document extends `docs` and `file_names`.
   */
  method LoadTxtFiles(files: seq<Document>, chunkSize: nat, overlap: nat) returns (r: Result<Corpus, ConfigError>)
    ensures r == LoadSpec(files, chunkSize, overlap)
  {
    var docs: seq<string> := [];
    var fileNames: seq<string> := [];
    for k := 0 to |files|
      invariant LoadSpec(files[..k], chunkSize, overlap) == Success(Corpus(docs, fileNames))
    {
      assert files[..k + 1][..k] == files[..k];
      if !IsTxt(files[k].name) {
        continue;
      }
      var step := LoadFile(files[k], chunkSize, overlap, docs, fileNames);
      if step.Failure? {
        LoadSpecPrefixFailure(files, k + 1, chunkSize, overlap);
        assert LoadSpec(files, chunkSize, overlap).error == step.error;
        return Failure(step.error);
      }
      docs, fileNames := step.value.docs, step.value.fileNames;
    }
    assert files[..|files|] == files;
    return Success(Corpus(docs, fileNames));
  }

  /** `[name] * n` */
  function Repeat(name: string, n: nat): (r: seq<string>)
    ensures |r| == n && forall i :: 0 <= i < n ==> r[i] == name
  {
    seq(n, _ => name)
  }

  lemma RepeatAppend(name: string, a: nat, b: nat)
    ensures Repeat(name, a) + Repeat(name, b) == Repeat(name, a + b)
  {
  }

  /** One more paragraph: nothing is added for an empty one; otherwise its windows are appended, or their failure fails the file. */
  lemma ChunksOfStep(paras: seq<string>, p: nat, width: nat, overlap: nat, prev: seq<string>)
    requires p < |paras| && ChunksOf(paras[..p], width, overlap) == Success(prev)
    ensures paras[p] == [] ==> ChunksOf(paras[..p + 1], width, overlap) == Success(prev)
    ensures paras[p] != [] && Windows(paras[p], width, overlap).Failure? ==>
      ChunksOf(paras, width, overlap) == Failure(Windows(paras[p], width, overlap).error)
    ensures paras[p] != [] && Windows(paras[p], width, overlap).Success? ==>
      ChunksOf(paras[..p + 1], width, overlap) == Success(prev + Windows(paras[p], width, overlap).value)
  {
    assert paras[..p + 1][..p] == paras[..p];
    assert paras[..p + 1][p] == paras[p];
    if paras[p] == [] {
      assert prev + [] == prev;
    } else if Windows(paras[p], width, overlap).Failure? {
      ChunksOfPrefixFailure(paras, p + 1, width, overlap);
      assert ChunksOf(paras, width, overlap).error.ZeroStride?;
      assert Windows(paras[p], width, overlap).error.ZeroStride?;
    }
  }

  /** A `.txt` document whose paragraph loop fails fails the whole load step. */
  lemma WithTxtFileFails(prev: Corpus, file: Document, width: nat, overlap: nat)
    requires IsTxt(file.name) && FileChunks(file.text, width, overlap).Failure?
    ensures WithFile(prev, file, width, overlap) == Failure(FileChunks(file.text, width, overlap).error)
  {
  }

  /** A `.txt` document whose paragraphs all chunk extends both lists by its chunks and its name. */
  lemma WithTxtFile(prev: Corpus, file: Document, width: nat, overlap: nat, cs: seq<string>)
    requires IsTxt(file.name) && FileChunks(file.text, width, overlap) == Success(cs)
    ensures WithFile(prev, file, width, overlap) == Success(Corpus(prev.docs + cs, prev.fileNames + Repeat(file.name, |cs|)))
  {
  }

  /** Appending a paragraph's windows to both lists keeps them the prefix plus the file's chunks so far. */
  lemma ExtendLists(docs0: seq<string>, names0: seq<string>, done: seq<string>, more: seq<string>, name: string)
    ensures (docs0 + done) + more == docs0 + (done + more)
    ensures (names0 + Repeat(name, |done|)) + Repeat(name, |more|) == names0 + Repeat(name, |done + more|)
  {
    RepeatAppend(name, |done|, |more|);
  }

  /**
   * The body of the outer loop for one `.txt` document: the inner loop over
   * its paragraphs appends each non-empty paragraph's
   * windows to `docs` and as many copies of its name to `file_names`.
   */
  method LoadFile(file: Document, chunkSize: nat, overlap: nat, docs0: seq<string>, names0: seq<string>)
    returns (r: Result<Corpus, ConfigError>)
    requires IsTxt(file.name)
    ensures r == WithFile(Corpus(docs0, names0), file, chunkSize, overlap)
  {
    var docs, fileNames := docs0, names0;
    var paragraphs := Split(file.text, ParagraphBreak);
    ghost var cleanedAll := CleanParagraphs(file.text);
    ghost var fileChunks: seq<string> := [];
    for p := 0 to |paragraphs|
      invariant ChunksOf(cleanedAll[..p], chunkSize, overlap) == Success(fileChunks)
      invariant docs == docs0 + fileChunks
      invariant fileNames == names0 + Repeat(file.name, |fileChunks|)
    {
      var cleaned := Normalize(paragraphs[p]);
      assert cleaned == cleanedAll[p];
      ChunksOfStep(cleanedAll, p, chunkSize, overlap, fileChunks);
      if |cleaned| > 0 {
        var chunks := Windows(cleaned, chunkSize, overlap);
        if chunks.Failure? {
          WithTxtFileFails(Corpus(docs0, names0), file, chunkSize, overlap);
          return Failure(chunks.error);
        }
        ExtendLists(docs0, names0, fileChunks, chunks.value, file.name);
        docs := docs + chunks.value;
        fileNames := fileNames + Repeat(file.name, |chunks.value|);
        fileChunks := fileChunks + chunks.value;
      }
    }
    assert cleanedAll[..|paragraphs|] == cleanedAll;
    WithTxtFile(Corpus(docs0, names0), file, chunkSize, overlap, fileChunks);
    return Success(Corpus(docs, fileNames));
  }
}

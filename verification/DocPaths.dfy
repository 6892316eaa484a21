/** Repository paths as strings: their sort order, and the target derived from a source. */
module DocPaths {
  import opened Counting

  type Path = string

  /** The order Python sorts strings in: by code point, a prefix first. */
  predicate AtMost(a: string, b: string) {
    if a == [] then true
    else if b == [] then false
    else if a[0] != b[0] then a[0] < b[0]
    else AtMost(a[1..], b[1..])
  }

  lemma {:induction false} AtMostTotal(a: string, b: string)
    ensures AtMost(a, b) || AtMost(b, a)
    ensures AtMost(a, b) && AtMost(b, a) ==> a == b
  {
    if a != [] && b != [] && a[0] == b[0] {
      AtMostTotal(a[1..], b[1..]);
      assert a == [a[0]] + a[1..] && b == [b[0]] + b[1..];
    }
  }

  lemma {:induction false} AtMostTransitive(a: string, b: string, c: string)
    requires AtMost(a, b) && AtMost(b, c)
    ensures AtMost(a, c)
  {
    if a != [] && a[0] == b[0] == c[0] {
      AtMostTransitive(a[1..], b[1..], c[1..]);
    }
  }

  lemma PathsOrdered()
    ensures TotalOrder(AtMost)
  {
    forall a, b ensures (AtMost(a, b) || AtMost(b, a)) && (AtMost(a, b) && AtMost(b, a) ==> a == b) {
      AtMostTotal(a, b);
    }
    forall a, b, c | AtMost(a, b) && AtMost(b, c) ensures AtMost(a, c) {
      AtMostTransitive(a, b, c);
    }
  }

  lemma SameFirst(c: char, a: string, b: string)
    ensures AtMost([c] + a, [c] + b) <==> AtMost(a, b)
  {
    assert ([c] + a)[1..] == a && ([c] + b)[1..] == b;
  }

  lemma {:induction false} SameStart(prefix: string, a: string, b: string)
    ensures AtMost(prefix + a, prefix + b) <==> AtMost(a, b)
  {
    if prefix == "" {
      assert "" + a == a && "" + b == b;
    } else {
      assert prefix + a == [prefix[0]] + (prefix[1..] + a) && prefix + b == [prefix[0]] + (prefix[1..] + b);
      SameFirst(prefix[0], prefix[1..] + a, prefix[1..] + b);
      SameStart(prefix[1..], a, b);
    }
  }

  /** Where two strings first differ decides; a proper prefix comes first. */
  lemma FirstDifference(a: string, b: string, i: nat)
    requires i <= |a| && i <= |b| && a[..i] == b[..i]
    ensures i == |a| ==> AtMost(a, b)
    ensures i == |b| < |a| ==> !AtMost(a, b)
    ensures i < |a| && i < |b| && a[i] != b[i] ==> (AtMost(a, b) <==> a[i] < b[i])
  {
    assert a == a[..i] + a[i..] && b == b[..i] + b[i..];
    SameStart(a[..i], a[i..], b[i..]);
  }

  /** sorted(paths). */
  function SortedPaths(s: set<Path>): (r: seq<Path>)
    ensures Ascending(AtMost, r) && |r| == |s| && forall p :: p in r <==> p in s
  {
    PathsOrdered();
    Sorted(AtMost, s)
  }

  // ----- The target of a Markdown source

  predicate EndsWith(p: string, suffix: string) {
    |suffix| <= |p| && p[|p| - |suffix|..] == suffix
  }

  /** Position of the last `c` in p, or -1. */
  function LastIndex(p: string, c: char): (i: int)
    ensures -1 <= i < |p|
    ensures i >= 0 ==> p[i] == c
    ensures forall k :: i < k < |p| ==> p[k] != c
  {
    if p == [] then -1
    else if p[|p| - 1] == c then |p| - 1
    else LastIndex(p[..|p| - 1], c)
  }

  /** PurePosixPath(p).with_suffix(".pdf"): a leading dot of the name does not start a suffix, a
      trailing one is not a suffix. */
  function PdfOf(p: Path): Path {
    var slash, dot := LastIndex(p, '/'), LastIndex(p, '.');
    if slash + 1 < dot < |p| - 1 then p[..dot] + ".pdf" else p + ".pdf"
  }

  /** A file name's extension: what follows the last dot, with something before the dot and after. */
  predicate Extension(base: Path, ext: string) {
    base != "" && base[|base| - 1] != '/' && ext != "" && '.' !in ext && '/' !in ext
  }

  lemma ExtensionDot(p: Path, base: Path, ext: string)
    requires Extension(base, ext) && p == base + "." + ext
    ensures var n := |base|;
            && 0 < n < |p| - 1 && p[n - 1] != '/' && p[n] == '.' && p[..n] == base
            && forall k :: n < k < |p| ==> p[k] != '.' && p[k] != '/'
  {
    var n := |base|;
    forall k | n < k < |p| ensures p[k] in ext {
      assert p[k] == ext[k - n - 1];
    }
  }

  lemma PdfOfSuffix(base: Path, ext: string)
    requires Extension(base, ext)
    ensures PdfOf(base + "." + ext) == base + ".pdf"
  {
    var p, n := base + "." + ext, |base|;
    ExtensionDot(p, base, ext);
    LastIndexIs(p, '.', n);
  }

  lemma PdfOfPlain(p: Path)
    requires forall base, ext :: Extension(base, ext) ==> p != base + "." + ext
    ensures PdfOf(p) == p + ".pdf"
  {
    var slash, dot := LastIndex(p, '/'), LastIndex(p, '.');
    if slash + 1 < dot < |p| - 1 {
      assert p == p[..dot] + "." + p[dot + 1..];
      assert Extension(p[..dot], p[dot + 1..]);
    }
  }

  /** p names a file that is nothing but the suffix: ".md", or "docs/.md". */
  predicate Hidden(p: Path) {
    p == ".md" || EndsWith(p, "/.md")
  }

  lemma LastIndexIs(p: string, c: char, i: nat)
    requires i < |p| && p[i] == c && forall k :: i < k < |p| ==> p[k] != c
    ensures LastIndex(p, c) == i
  {
  }

  lemma SuffixChars(p: Path)
    requires EndsWith(p, ".md")
    ensures p[|p| - 3] == '.' && p[|p| - 2] == 'm' && p[|p| - 1] == 'd'
  {
    var tail := p[|p| - 3..];
    assert tail == ".md";
    assert p[|p| - 3] == tail[0] && p[|p| - 2] == tail[1] && p[|p| - 1] == tail[2];
  }

  lemma HiddenName(p: Path)
    requires EndsWith(p, ".md")
    ensures Hidden(p) <==> |p| == 3 || p[|p| - 4] == '/'
  {
    if |p| == 3 {
      assert p == p[0..];
    } else {
      assert p[|p| - 4..] == [p[|p| - 4]] + p[|p| - 3..];
      assert "/.md" == ['/'] + ".md";
      assert p[|p| - 4..][0] == p[|p| - 4] && "/.md"[0] == '/';
    }
  }

  lemma PdfOfMarkdown(p: Path)
    requires EndsWith(p, ".md")
    ensures PdfOf(p) == if Hidden(p) then p + ".pdf" else p[..|p| - 3] + ".pdf"
  {
    SuffixChars(p);
    HiddenName(p);
    LastIndexIs(p, '.', |p| - 3);
    var slash := LastIndex(p, '/');
    assert slash < |p| - 3;
    if |p| > 3 && p[|p| - 4] == '/' {
      LastIndexIs(p, '/', |p| - 4);
    }
  }

  /** A Markdown path up to the suffix that its PDF replaces, if it has one. */
  function Stem(p: Path): Path
    requires EndsWith(p, ".md")
  {
    if Hidden(p) then p else p[..|p| - 3]
  }

  lemma SharedStem(p: Path, q: Path)
    requires EndsWith(p, ".md") && EndsWith(q, ".md") && p != q
    ensures Stem(p) == Stem(q) <==> (Hidden(p) && q == p + ".md") || (Hidden(q) && p == q + ".md")
  {
    assert p == p[..|p| - 3] + ".md" && q == q[..|q| - 3] + ".md";
    NotHiddenTwice(p);
    NotHiddenTwice(q);
  }

  /** Two Markdown files share a target only when one is the bare suffix and the other that suffix
      twice: docs/.md and docs/.md.md. */
  lemma SharedTarget(p: Path, q: Path)
    requires EndsWith(p, ".md") && EndsWith(q, ".md") && p != q
    ensures PdfOf(p) == PdfOf(q) <==> (Hidden(p) && q == p + ".md") || (Hidden(q) && p == q + ".md")
  {
    PdfOfMarkdown(p);
    PdfOfMarkdown(q);
    Unsuffixed(Stem(p), Stem(q));
    SharedStem(p, q);
  }

  lemma Unsuffixed(a: Path, b: Path)
    ensures a + ".pdf" == b + ".pdf" <==> a == b
  {
    if a + ".pdf" == b + ".pdf" {
      assert a == (a + ".pdf")[..|a|] && b == (b + ".pdf")[..|b|];
    }
  }

  lemma NotHiddenTwice(p: Path)
    requires EndsWith(p, ".md")
    ensures !Hidden(p + ".md") && (p + ".md")[..|p|] == p
  {
    var q := p + ".md";
    assert p[|p| - 3..] == ".md";
    assert q[|q| - 4] == p[|p| - 1] == p[|p| - 3..][2] == 'd';
    assert q[|q| - 4..][0] == 'd';
  }

  lemma SharedTargetExample()
    ensures PdfOf("docs/.md") == PdfOf("docs/.md.md") == "docs/.md.pdf"
  {
    LastIndexIs("docs/.md", '.', 5);
    LastIndexIs("docs/.md", '/', 4);
    LastIndexIs("docs/.md.md", '.', 8);
    LastIndexIs("docs/.md.md", '/', 4);
    assert "docs/.md.md"[..8] == "docs/.md";
    assert "docs/.md" + ".pdf" == "docs/.md.pdf";
  }
}

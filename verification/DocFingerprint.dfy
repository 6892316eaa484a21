/** The bytes fingerprint() of docs/build_pdfs.py feeds to SHA-256: what they tell apart. */
module DocFingerprint {
  import opened Counting
  import opened DocPaths
  import opened DocPublications
  import opened DocPlan

  /** Blob ids of a ref, by path. */
  type Blobs = map<Path, string>

  const BUILDER_PATHS: set<Path> := {
    "docs/build_pdfs.py", "docs/pdf_publications.json", ".github/workflows/docs-build.yml"
  }

  const MISSING: string := "<missing>"

  function FingerprintInputs(p: Publication): set<Path> {
    p.Inputs() + BUILDER_PATHS + if p.assembler != [] then {p.assembler[|p.assembler| - 1]} else {}
  }

  function BlobOf(blobs: Blobs, rel: Path): string {
    if rel in blobs then blobs[rel] else MISSING
  }

  /** A path and its blob for every input, each followed by a NUL. */
  function Framed(rels: seq<Path>, blobs: Blobs): seq<string> {
    if rels == [] then [] else [rels[0], BlobOf(blobs, rels[0])] + Framed(rels[1..], blobs)
  }

  function Preimage(inputs: set<Path>, blobs: Blobs): string {
    Terminated(Framed(SortedPaths(inputs), blobs))
  }

  lemma {:induction false} FramedConcat(a: seq<Path>, b: seq<Path>, blobs: Blobs)
    ensures Framed(a + b, blobs) == Framed(a, blobs) + Framed(b, blobs)
  {
    if a == [] {
      assert a + b == b;
    } else {
      assert (a + b)[1..] == a[1..] + b;
      FramedConcat(a[1..], b, blobs);
    }
  }

  lemma FramedOne(rel: Path, blobs: Blobs)
    ensures Terminated(Framed([rel], blobs)) == rel + [NUL] + BlobOf(blobs, rel) + [NUL]
  {
    var fields := [rel, BlobOf(blobs, rel)];
    assert Framed([rel], blobs) == fields;
    assert fields[1..] == [BlobOf(blobs, rel)];
    assert Terminated(fields[1..]) == BlobOf(blobs, rel) + [NUL];
  }

  lemma FramedMore(rels: seq<Path>, i: nat, blobs: Blobs)
    requires i < |rels|
    ensures Terminated(Framed(rels[..i + 1], blobs))
         == Terminated(Framed(rels[..i], blobs)) + (rels[i] + [NUL] + BlobOf(blobs, rels[i]) + [NUL])
  {
    assert rels[..i + 1] == rels[..i] + [rels[i]];
    FramedConcat(rels[..i], [rels[i]], blobs);
    TerminatedAppend(Framed(rels[..i], blobs), Framed([rels[i]], blobs));
    FramedOne(rels[i], blobs);
  }

  method FeedAll(rels: seq<Path>, blobs: Blobs) returns (fed: string)
    ensures fed == Terminated(Framed(rels, blobs))
  {
    fed := "";
    for i := 0 to |rels|
      invariant fed == Terminated(Framed(rels[..i], blobs))
    {
      var blob := if rels[i] in blobs then blobs[rels[i]] else MISSING;
      FramedMore(rels, i, blobs);
      fed := fed + (rels[i] + [NUL] + blob + [NUL]);
    }
    assert rels[..|rels|] == rels;
  }

  /** fingerprint, up to the digest: the hash state fed piece by piece. */
  method Fingerprint(p: Publication, blobs: Blobs) returns (fed: string)
    ensures fed == Preimage(FingerprintInputs(p), blobs)
  {
    var inputs := p.Inputs();
    inputs := inputs + BUILDER_PATHS;
    if p.assembler != [] {
      inputs := inputs + {p.assembler[|p.assembler| - 1]};
    }
    assert inputs == FingerprintInputs(p);
    fed := FeedAll(SortedPaths(inputs), blobs);
  }

  lemma TailAscends(s: seq<Path>)
    requires s != [] && Ascending(AtMost, s)
    ensures Ascending(AtMost, s[1..]) && s[0] !in s[1..]
  {
  }

  lemma LeastFirst(inputs: set<Path>, x: Path)
    requires x in inputs && forall y :: y in inputs ==> AtMost(x, y)
    ensures SortedPaths(inputs) == [x] + SortedPaths(inputs - {x})
  {
    var all, rest := SortedPaths(inputs), SortedPaths(inputs - {x});
    PathsOrdered();
    assert all[0] in all && all[0] == x by {
      assert x in all;
    }
    TailAscends(all);
    TailElements(all);
    AscendingUnique(AtMost, all[1..], rest);
  }

  /** The bytes: the least path, a NUL, its blob or the marker, a NUL, and then those of the others. */
  lemma PreimageIs(inputs: set<Path>, x: Path, blobs: Blobs)
    requires x in inputs && forall y :: y in inputs ==> AtMost(x, y)
    ensures Preimage(inputs, blobs)
         == x + [NUL] + (if x in blobs then blobs[x] else "<missing>") + [NUL] + Preimage(inputs - {x}, blobs)
    ensures Preimage({}, blobs) == ""
  {
    var rest := SortedPaths(inputs - {x});
    LeastFirst(inputs, x);
    FramedConcat([x], rest, blobs);
    TerminatedAppend(Framed([x], blobs), Framed(rest, blobs));
    FramedOne(x, blobs);
    assert SortedPaths({}) == [];
  }

  // ----- Framing is injective

  /** Neither paths nor blob ids contain a NUL, and no blob id is the marker of a missing file. */
  ghost predicate Plain(inputs: set<Path>, blobs: Blobs) {
    && (forall rel :: rel in inputs ==> NulFree(rel))
    && (forall rel :: rel in inputs && rel in blobs ==> NulFree(blobs[rel]) && blobs[rel] != MISSING)
  }

  lemma {:induction false} FramedNulFree(rels: seq<Path>, blobs: Blobs)
    requires forall rel :: rel in rels ==> NulFree(rel) && NulFree(BlobOf(blobs, rel))
    ensures forall i :: 0 <= i < |Framed(rels, blobs)| ==> NulFree(Framed(rels, blobs)[i])
  {
    if rels != [] {
      TailElements(rels);
      FramedNulFree(rels[1..], blobs);
    }
  }

  lemma SortedNulFree(inputs: set<Path>, blobs: Blobs)
    requires Plain(inputs, blobs)
    ensures forall i :: 0 <= i < |Framed(SortedPaths(inputs), blobs)| ==> NulFree(Framed(SortedPaths(inputs), blobs)[i])
  {
    FramedNulFree(SortedPaths(inputs), blobs);
  }

  lemma {:induction false} FramedEqual(a: seq<Path>, blobs: Blobs, b: seq<Path>, other: Blobs)
    ensures Framed(a, blobs) == Framed(b, other) <==>
              a == b && forall rel :: rel in a ==> BlobOf(blobs, rel) == BlobOf(other, rel)
  {
    if a != [] && b != [] {
      TailElements(a);
      TailElements(b);
      FramedEqual(a[1..], blobs, b[1..], other);
      var s, t := Framed(a, blobs), Framed(b, other);
      assert s == [a[0], BlobOf(blobs, a[0])] + Framed(a[1..], blobs);
      assert t == [b[0], BlobOf(other, b[0])] + Framed(b[1..], other);
      assert s[2..] == Framed(a[1..], blobs) && t[2..] == Framed(b[1..], other);
      assert s[0] == a[0] && s[1] == BlobOf(blobs, a[0]) && t[0] == b[0] && t[1] == BlobOf(other, b[0]);
      assert a == [a[0]] + a[1..] && b == [b[0]] + b[1..];
    }
  }

  lemma SplitWhole(fields: seq<string>)
    requires forall i :: 0 <= i < |fields| ==> NulFree(fields[i])
    ensures Split(Terminated(fields)) == fields + [""]
  {
    SplitTerminated(fields, "");
    assert Terminated(fields) + "" == Terminated(fields);
  }

  lemma TerminatedInjective(a: seq<string>, b: seq<string>)
    requires forall i :: 0 <= i < |a| ==> NulFree(a[i])
    requires forall i :: 0 <= i < |b| ==> NulFree(b[i])
    ensures Terminated(a) == Terminated(b) <==> a == b
  {
    SplitWhole(a);
    SplitWhole(b);
    if a + [""] == b + [""] {
      assert a == (a + [""])[..|a|] && b == (b + [""])[..|b|];
    }
  }

  /** The same state of a path: absent at both refs, or the same blob. */
  predicate SameBlob(blobs: Blobs, other: Blobs, rel: Path) {
    (rel in blobs <==> rel in other) && (rel in blobs ==> blobs[rel] == other[rel])
  }

  /** Two refs feed the hash the same bytes exactly when the inputs are the same paths and each is in
      the same state. */
  lemma PreimageInjective(inputs: set<Path>, blobs: Blobs, inputs': set<Path>, other: Blobs)
    requires Plain(inputs, blobs) && Plain(inputs', other)
    ensures Preimage(inputs, blobs) == Preimage(inputs', other) <==>
              inputs == inputs' && forall rel :: rel in inputs ==> SameBlob(blobs, other, rel)
  {
    var a, b := SortedPaths(inputs), SortedPaths(inputs');
    SortedNulFree(inputs, blobs);
    SortedNulFree(inputs', other);
    TerminatedInjective(Framed(a, blobs), Framed(b, other));
    FramedEqual(a, blobs, b, other);
    assert inputs == Elements(a) && inputs' == Elements(b);
    forall rel | rel in inputs && rel in inputs'
      ensures BlobOf(blobs, rel) == BlobOf(other, rel) <==> SameBlob(blobs, other, rel)
    {
    }
  }

  lemma BuilderPaths(x: Path)
    ensures x in BUILDER_PATHS <==>
              x == "docs/build_pdfs.py" || x == "docs/pdf_publications.json" || x == ".github/workflows/docs-build.yml"
  {
  }

  /** A change of one path alone is seen exactly when it is a declared dependency, the source where
      none is declared, a builder file or the last word of the assembler's command. */
  lemma ChangeSeen(p: Publication, blobs: Blobs, other: Blobs, x: Path)
    requires Plain(FingerprintInputs(p), blobs) && Plain(FingerprintInputs(p), other)
    requires !SameBlob(blobs, other, x) && forall rel :: rel != x ==> SameBlob(blobs, other, rel)
    ensures Preimage(FingerprintInputs(p), blobs) != Preimage(FingerprintInputs(p), other) <==>
              || x in p.dependencies || (p.dependencies == [] && x == p.source) || x in BUILDER_PATHS
              || (p.assembler != [] && p.assembler[|p.assembler| - 1] == x)
  {
    PreimageInjective(FingerprintInputs(p), blobs, FingerprintInputs(p), other);
  }

  /** The stale-write check compares fingerprints, but the planner also reacts to the source. A change
      of the source alone is seen by the fingerprint exactly when the source is itself a declared
      dependency (or is the default one), a builder file or the assembler script. */
  lemma SourceChangeSeen(p: Publication, blobs: Blobs, other: Blobs)
    requires Plain(FingerprintInputs(p), blobs) && Plain(FingerprintInputs(p), other)
    requires !SameBlob(blobs, other, p.source) && forall rel :: rel != p.source ==> SameBlob(blobs, other, rel)
    ensures Touched(p, {p.source})
    ensures Preimage(FingerprintInputs(p), blobs) != Preimage(FingerprintInputs(p), other) <==>
              p.dependencies == [] || p.source in p.dependencies || p.source in BUILDER_PATHS
              || (p.assembler != [] && p.assembler[|p.assembler| - 1] == p.source)
  {
    ChangeSeen(p, blobs, other, p.source);
  }

  lemma {:induction false} FramedSame(rels: seq<Path>, blobs: Blobs, other: Blobs)
    requires forall rel :: rel in rels ==> SameBlob(blobs, other, rel)
    ensures Framed(rels, blobs) == Framed(rels, other)
  {
    if rels != [] {
      TailElements(rels);
      FramedSame(rels[1..], blobs, other);
    }
  }

  /** A manual that lists the parts it is assembled from, but not its own source. */
  const MANUAL := Publication("manual", "docs/manual.md", "docs/manual.pdf", ["docs/part.md"],
                              ["python", "tools/assemble.py"], [], "", Composite)

  lemma BlindOutside(inputs: set<Path>, blobs: Blobs, x: Path, blob: string)
    requires x !in inputs
    ensures Preimage(inputs, blobs) == Preimage(inputs, blobs[x := blob])
  {
    FramedSame(SortedPaths(inputs), blobs, blobs[x := blob]);
  }

  /** Its source changes, the planner would rebuild it, and the hash is fed the same bytes. */
  lemma BlindExample()
    ensures var blobs: Blobs := map["docs/manual.md" := "1", "docs/part.md" := "2"];
            var other := blobs["docs/manual.md" := "3"];
            && !SameBlob(blobs, other, MANUAL.source) && Touched(MANUAL, {MANUAL.source})
            && Preimage(FingerprintInputs(MANUAL), blobs) == Preimage(FingerprintInputs(MANUAL), other)
  {
    assert "1"[0] != "3"[0];
    ManualNotHashed();
    BlindOutside(FingerprintInputs(MANUAL), map["docs/manual.md" := "1", "docs/part.md" := "2"], "docs/manual.md", "3");
  }

  lemma ManualNotHashed()
    ensures "docs/manual.md" !in FingerprintInputs(MANUAL)
  {
    assert |"docs/manual.md"| == 14 && |"docs/part.md"| == 12 && |"tools/assemble.py"| == 17;
    assert |".github/workflows/docs-build.yml"| == 32;
    assert |"docs/build_pdfs.py"| == 18 && |"docs/pdf_publications.json"| == 26;
  }
}

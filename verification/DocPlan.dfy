/** From two trees and a name-status diff to a build plan: _diff_name_status, _changed_paths,
    plan_range, plan_paths and _plan_payload of docs/build_pdfs.py. */
module DocPlan {
  import opened Counting
  import opened DocPaths
  import opened DocPublications

  datatype Result<T> = Ok(value: T) | Truncated

  // ----- The NUL-separated diff

  const NUL: char := 0 as char

  /** A line of `git diff --name-status -z`; `dest` is used by renames and copies only. */
  datatype RawRecord = RawRecord(status: string, path: Path, dest: Path)

  /** `dest` is "" where the source has None; both are skipped by _changed_paths. */
  datatype Change = Change(code: char, path: Path, dest: Path)

  predicate TwoPaths(code: char) { code == 'R' || code == 'C' }

  predicate NulFree(s: string) { NUL !in s }

  predicate WellFormed(r: RawRecord) {
    r.status != "" && NulFree(r.status) && NulFree(r.path) && NulFree(r.dest)
  }

  function FieldsOf(r: RawRecord): seq<string>
    requires r.status != ""
  {
    if TwoPaths(r.status[0]) then [r.status, r.path, r.dest] else [r.status, r.path]
  }

  function Terminated(fields: seq<string>): string {
    if fields == [] then "" else fields[0] + [NUL] + Terminated(fields[1..])
  }

  /** The stream git prints: every field followed by a NUL. */
  function Print(records: seq<RawRecord>): string
    requires AllWellFormed(records)
  {
    if records == [] then "" else Terminated(FieldsOf(records[0])) + Print(records[1..])
  }

  predicate AllWellFormed(records: seq<RawRecord>) {
    forall i :: 0 <= i < |records| ==> WellFormed(records[i])
  }

  function TrimAll(records: seq<RawRecord>): seq<Change>
    requires AllWellFormed(records)
  {
    seq(|records|, i requires 0 <= i < |records| => Trim(records[i]))
  }

  function Trim(r: RawRecord): Change
    requires r.status != ""
  {
    Change(r.status[0], r.path, if TwoPaths(r.status[0]) then r.dest else "")
  }

  /** bytes.split(b"\0"). */
  function Split(raw: string): (fields: seq<string>)
    ensures fields != []
  {
    if raw == "" then [""]
    else
      var rest := Split(raw[1..]);
      if raw[0] == NUL then [""] + rest else [[raw[0]] + rest[0]] + rest[1..]
  }

  function Fields(raw: string): seq<string> {
    var fields := Split(raw);
    if fields[|fields| - 1] == "" then fields[..|fields| - 1] else fields
  }

  function ParseFields(fields: seq<string>): Result<seq<Change>> {
    if fields == [] then Ok([])
    else if fields[0] == "" then Truncated
    else
      var used := if TwoPaths(fields[0][0]) then 3 else 2;
      if |fields| < used then Truncated
      else
        After([Change(fields[0][0], fields[1], if used == 3 then fields[2] else "")], ParseFields(fields[used..]))
  }

  function After(done: seq<Change>, rest: Result<seq<Change>>): Result<seq<Change>> {
    match rest
    case Truncated => Truncated
    case Ok(changes) => Ok(done + changes)
  }

  /** _diff_name_status; Truncated where Python raises IndexError. */
  method DiffNameStatus(raw: string) returns (r: Result<seq<Change>>)
    ensures r == ParseFields(Fields(raw))
  {
    var fields := Fields(raw);
    var result: seq<Change> := [];
    assert fields[0..] == fields;
    assert After([], ParseFields(fields)) == ParseFields(fields) by { AfterNothing(ParseFields(fields)); }
    var i := 0;
    while i < |fields|
      invariant 0 <= i <= |fields|
      invariant ParseFields(fields) == After(result, ParseFields(fields[i..]))
    {
      ghost var rest, before := fields[i..], result;
      var status := fields[i];
      if status == "" { return Truncated; }
      var code := status[0];
      if TwoPaths(code) {
        if i + 2 >= |fields| { return Truncated; }
        result := result + [Change(code, fields[i + 1], fields[i + 2])];
        i := i + 3;
        assert rest[3..] == fields[i..];
        AfterOne(before, result[|before|], ParseFields(fields[i..]));
      } else {
        if i + 1 >= |fields| { return Truncated; }
        result := result + [Change(code, fields[i + 1], "")];
        i := i + 2;
        assert rest[2..] == fields[i..];
        AfterOne(before, result[|before|], ParseFields(fields[i..]));
      }
    }
    assert result + [] == result;
    return Ok(result);
  }

  lemma AfterOne(done: seq<Change>, c: Change, rest: Result<seq<Change>>)
    ensures After(done, After([c], rest)) == After(done + [c], rest)
  {
    if rest.Ok? {
      assert done + ([c] + rest.value) == done + [c] + rest.value;
    }
  }

  lemma AfterNothing(rest: Result<seq<Change>>)
    ensures After([], rest) == rest
  {
    if rest.Ok? {
      assert [] + rest.value == rest.value;
    }
  }

  lemma {:induction false} SplitField(field: string, rest: string)
    requires NulFree(field)
    ensures Split(field + [NUL] + rest) == [field] + Split(rest)
  {
    var raw := field + [NUL] + rest;
    if field == "" {
      assert raw[1..] == rest;
    } else {
      assert raw[1..] == field[1..] + [NUL] + rest;
      SplitField(field[1..], rest);
      assert field == [field[0]] + field[1..];
    }
  }

  lemma {:induction false} SplitTerminated(fields: seq<string>, rest: string)
    requires forall i :: 0 <= i < |fields| ==> NulFree(fields[i])
    ensures Split(Terminated(fields) + rest) == fields + Split(rest)
  {
    if fields == [] {
      assert Terminated(fields) + rest == rest;
    } else {
      SplitTerminated(fields[1..], rest);
      SplitField(fields[0], Terminated(fields[1..]) + rest);
      assert Terminated(fields) + rest == fields[0] + [NUL] + (Terminated(fields[1..]) + rest);
      assert fields == [fields[0]] + fields[1..];
    }
  }

  function AllFields(records: seq<RawRecord>): seq<string>
    requires AllWellFormed(records)
  {
    if records == [] then [] else FieldsOf(records[0]) + AllFields(records[1..])
  }

  lemma {:induction false} SplitPrint(records: seq<RawRecord>)
    requires AllWellFormed(records)
    ensures Split(Print(records)) == AllFields(records) + [""]
  {
    if records != [] {
      SplitPrint(records[1..]);
      SplitTerminated(FieldsOf(records[0]), Print(records[1..]));
      assert FieldsOf(records[0]) + (AllFields(records[1..]) + [""]) == AllFields(records) + [""];
    }
  }

  lemma {:induction false} ParseAllFields(records: seq<RawRecord>)
    requires AllWellFormed(records)
    ensures ParseFields(AllFields(records)) == Ok(TrimAll(records))
  {
    if records != [] {
      ParseAllFields(records[1..]);
      var head, rest := FieldsOf(records[0]), AllFields(records[1..]);
      assert AllFields(records) == head + rest;
      assert (head + rest)[|head|..] == rest && forall i :: 0 <= i < |head| ==> (head + rest)[i] == head[i];
      assert TrimAll(records) == [Trim(records[0])] + TrimAll(records[1..]);
    }
  }

  /** Reading a printed diff gives the records back, statuses cut to their first letter. */
  lemma ParsePrint(records: seq<RawRecord>)
    requires AllWellFormed(records)
    ensures ParseFields(Fields(Print(records)))
         == Ok(TrimAll(records))
  {
    SplitPrint(records);
    ParseAllFields(records);
    assert (AllFields(records) + [""])[..|AllFields(records)|] == AllFields(records);
  }

  /** Of the statuses R and C name two paths, all others one. */
  lemma OneRecord(status: string, path: Path, dest: Path)
    requires status != ""
    ensures if status[0] == 'R' || status[0] == 'C' then
              && ParseFields([status, path, dest]) == Ok([Change(status[0], path, dest)])
              && ParseFields([status, path]) == Truncated
            else
              ParseFields([status, path]) == Ok([Change(status[0], path, "")])
  {
    var fields := if TwoPaths(status[0]) then [status, path, dest] else [status, path];
    assert fields[|fields|..] == [] && ParseFields([]) == Ok([]);
    var c := Change(status[0], path, if TwoPaths(status[0]) then dest else "");
    assert [c] + [] == [c];
  }

  lemma TerminatedFront(c: char, fields: seq<string>)
    requires fields != []
    ensures Terminated([[c] + fields[0]] + fields[1..]) == [c] + Terminated(fields)
  {
    var longer := [[c] + fields[0]] + fields[1..];
    assert longer[1..] == fields[1..];
    assert [c] + fields[0] + [NUL] + Terminated(fields[1..]) == [c] + (fields[0] + [NUL] + Terminated(fields[1..]));
  }

  lemma {:induction false} SplitJoins(raw: string)
    ensures Terminated(Split(raw)) == raw + [NUL]
  {
    if raw == "" {
      assert Terminated([""]) == [NUL];
    } else {
      SplitJoins(raw[1..]);
      assert raw + [NUL] == [raw[0]] + (raw[1..] + [NUL]);
      if raw[0] == NUL {
        TerminatedAppend([""], Split(raw[1..]));
        assert Terminated([""]) == [NUL];
      } else {
        TerminatedFront(raw[0], Split(raw[1..]));
      }
    }
  }

  lemma {:induction false} SplitNulFree(raw: string)
    ensures forall i :: 0 <= i < |Split(raw)| ==> NulFree(Split(raw)[i])
  {
    if raw != "" {
      SplitNulFree(raw[1..]);
    }
  }

  lemma {:induction false} SplitLast(raw: string)
    ensures Split(raw)[|Split(raw)| - 1] == "" <==> raw == "" || raw[|raw| - 1] == NUL
  {
    if raw != "" {
      SplitLast(raw[1..]);
    }
  }

  lemma {:induction false} SplitClosed(raw: string)
    ensures Split(raw + [NUL]) == Split(raw) + [""]
  {
    if raw == "" {
      assert ("" + [NUL])[1..] == "";
    } else {
      assert (raw + [NUL])[1..] == raw[1..] + [NUL];
      SplitClosed(raw[1..]);
    }
  }

  lemma {:induction false} TerminatedAppend(a: seq<string>, b: seq<string>)
    ensures Terminated(a + b) == Terminated(a) + Terminated(b)
  {
    if a == [] {
      assert a + b == b;
    } else {
      assert (a + b)[1..] == a[1..] + b;
      TerminatedAppend(a[1..], b);
    }
  }

  lemma {:induction false} PrintIsTerminated(records: seq<RawRecord>)
    requires AllWellFormed(records)
    ensures Print(records) == Terminated(AllFields(records))
  {
    if records != [] {
      PrintIsTerminated(records[1..]);
      TerminatedAppend(FieldsOf(records[0]), AllFields(records[1..]));
    }
  }

  lemma {:induction false} RecordsRead(fields: seq<string>) returns (records: seq<RawRecord>)
    requires ParseFields(fields).Ok? && forall i :: 0 <= i < |fields| ==> NulFree(fields[i])
    ensures AllWellFormed(records) && AllFields(records) == fields
  {
    if fields == [] {
      return [];
    }
    var used := if TwoPaths(fields[0][0]) then 3 else 2;
    var rest := RecordsRead(fields[used..]);
    var r := RawRecord(fields[0], fields[1], if used == 3 then fields[2] else "");
    records := [r] + rest;
    assert FieldsOf(r) == fields[..used] && records[1..] == rest;
  }

  /** `raw` is the print of the records, or lacks only the last NUL of it. */
  predicate Prints(raw: string, records: seq<RawRecord>)
    requires AllWellFormed(records)
  {
    Print(records) == if raw == "" || raw[|raw| - 1] == NUL then raw else raw + [NUL]
  }

  lemma PrintsFields(raw: string, records: seq<RawRecord>)
    requires AllWellFormed(records)
    ensures Prints(raw, records) <==> Fields(raw) == AllFields(records)
  {
    SplitJoins(raw);
    SplitLast(raw);
    PrintIsTerminated(records);
    SplitPrint(records);
    if raw == "" || raw[|raw| - 1] == NUL {
      ClosedFields(raw, AllFields(records));
    } else {
      SplitClosed(raw);
      SameFront(Split(raw), AllFields(records), "");
    }
  }

  lemma SameFront(a: seq<string>, b: seq<string>, last: string)
    ensures a + [last] == b + [last] <==> a == b
  {
    assert (a + [last])[..|a|] == a && (b + [last])[..|b|] == b;
    assert a + [last] == b + [last] ==> |a| == |b|;
  }

  lemma ClosedFields(raw: string, fields: seq<string>)
    requires Split(raw)[|Split(raw)| - 1] == "" && Terminated(Split(raw)) == raw + [NUL]
    requires Split(Terminated(fields)) == fields + [""]
    ensures raw == Terminated(fields) <==> Split(raw)[..|Split(raw)| - 1] == fields
  {
    var front := Split(raw)[..|Split(raw)| - 1];
    assert Split(raw) == front + [""];
    SameFront(front, fields, "");
    TerminatedAppend(front, [""]);
    assert Terminated([""]) == [NUL];
    assert raw == (raw + [NUL])[..|raw|] == (Terminated(front) + [NUL])[..|Terminated(front)|];
  }

  /** A stream is read exactly when it prints some records, which are then what it gives. */
  lemma ReadExactly(raw: string)
    ensures ParseFields(Fields(raw)).Ok? <==> exists records :: AllWellFormed(records) && Prints(raw, records)
    ensures forall records :: AllWellFormed(records) && Prints(raw, records)
              ==> ParseFields(Fields(raw)) == Ok(TrimAll(records))
  {
    forall records | AllWellFormed(records) && Prints(raw, records)
      ensures ParseFields(Fields(raw)) == Ok(TrimAll(records))
    {
      PrintsFields(raw, records);
      ParseAllFields(records);
    }
    if ParseFields(Fields(raw)).Ok? {
      SplitNulFree(raw);
      var records := RecordsRead(Fields(raw));
      PrintsFields(raw, records);
    }
  }

  // ----- Plans

  const INFRA_PATHS: set<Path> := {
    ".github/workflows/docs-build.yml",
    "docs/build_pdfs.py",
    "docs/pdf_publications.json",
    "docs/build_architecture_pdf.sh",
    "tools/build_mlff_architecture_manual.py"
  }

  datatype Record = Record(source: Path, target: Path, outputs: set<Path>)

  datatype Plan = Plan(
    reason: string,
    changed: seq<Path>,
    targets: seq<Publication>,
    deletions: seq<Path>,
    records: seq<Record>)

  type Publications = map<Path, Publication>

  function Changed(changes: seq<Change>): (r: set<Path>) {
    (set c | c in changes :: c.path) + (set c | c in changes && c.dest != "" :: c.dest)
  }

  /** _plan_payload; publications and records are already unique by target. */
  function Payload(reason: string, pubs: Publications, deletions: set<Path>, changed: seq<Path>,
                   records: map<Path, Record>): Plan
  {
    var targets, recorded := SortedPaths(pubs.Keys), SortedPaths(records.Keys);
    Plan(reason, changed,
         seq(|targets|, i requires 0 <= i < |targets| => assert targets[i] in targets; pubs[targets[i]]),
         SortedPaths(deletions),
         seq(|recorded|, i requires 0 <= i < |recorded| => assert recorded[i] in recorded; records[recorded[i]]))
  }

  predicate Touched(p: Publication, changed: set<Path>) {
    p.source in changed || changed * p.Inputs() != {}
  }

  function Selected(after: Publications, changed: set<Path>): Publications {
    map t | t in after && Touched(after[t], changed) :: after[t]
  }

  /** Publications of the old tree that are gone and whose source or inputs the range touched. */
  function Obsolete(before: Publications, after: Publications, changed: set<Path>): Publications {
    map t | t in before && t !in after && Touched(before[t], changed) :: before[t]
  }

  function OutputsOf(pubs: Publications): set<Path> {
    set t, o | t in pubs && o in pubs[t].Outputs() :: o
  }

  function RecordOf(p: Publication): Record { Record(p.source, p.target, p.Outputs()) }

  function RecordsOf(pubs: Publications): map<Path, Record> {
    map t | t in pubs :: RecordOf(pubs[t])
  }

  /** What plan_range is for, said without its loops: rebuild what is published and touched, delete
      the outputs of what is obsolete. Only the set of changed paths matters. */
  function RangePlan(before: Publications, after: Publications, changed: set<Path>): Plan {
    if changed * INFRA_PATHS != {} then
      Payload("full-infrastructure-change", after, {}, SortedPaths(changed), map[])
    else
      var obsolete := Obsolete(before, after, changed);
      Payload("incremental", Selected(after, changed), OutputsOf(obsolete), SortedPaths(changed), RecordsOf(obsolete))
  }

  function ZeroPlan(after: Publications): Plan { Payload("full-zero-before", after, {}, [], map[]) }

  function FullPlan(after: Publications): Plan { Payload("full-explicit", after, {}, [], map[]) }

  /** plan_paths. */
  function PathsPlan(pubs: Publications, changed: set<Path>): Plan {
    if changed * INFRA_PATHS != {} then
      Payload("full-infrastructure-change", pubs, {}, SortedPaths(changed), map[])
    else
      Payload("explicit-paths", Selected(pubs, changed), {}, SortedPaths(changed), map[])
  }

  // ----- plan_range as written

  method ChangedPaths(changes: seq<Change>) returns (result: set<Path>)
    ensures result == Changed(changes)
  {
    result := {};
    for i := 0 to |changes|
      invariant result == Changed(changes[..i])
    {
      assert changes[..i + 1] == changes[..i] + [changes[i]];
      result := result + {changes[i].path};
      if changes[i].dest != "" {
        result := result + {changes[i].dest};
      }
    }
    assert changes[..|changes|] == changes;
  }

  /** The two selection loops. */
  method Select(after: Publications, changed: set<Path>) returns (selected: Publications)
    ensures selected == Selected(after, changed)
  {
    selected := map[];
    var todo := after.Keys;
    while todo != {}
      invariant todo <= after.Keys
      invariant selected == map t | t in after && t !in todo && changed * after[t].Inputs() != {} :: after[t]
      decreases |todo|
    {
      var target :| target in todo;
      if changed * after[target].Inputs() != {} {
        selected := selected[target := after[target]];
      }
      todo := todo - {target};
    }
    todo := after.Keys;
    while todo != {}
      invariant todo <= after.Keys
      invariant selected == map t | t in after
                              && (changed * after[t].Inputs() != {}
                                  || (t !in todo && after[t].source in changed)) :: after[t]
      decreases |todo|
    {
      var target :| target in todo;
      if after[target].source in changed {
        selected := selected[target := after[target]];
      }
      todo := todo - {target};
    }
  }

  function Without(pubs: Publications, todo: set<Path>): Publications {
    map t | t in pubs && t !in todo :: pubs[t]
  }

  lemma OneLessToDo(pubs: Publications, todo: set<Path>, t: Path)
    requires t in todo
    ensures Without(pubs, todo - {t}) == if t in pubs then Without(pubs, todo)[t := pubs[t]] else Without(pubs, todo)
    ensures t !in Without(pubs, todo)
  {
  }

  /** The deletion loop. */
  method CollectObsolete(before: Publications, after: Publications, changed: set<Path>)
    returns (deletions: set<Path>, records: map<Path, Record>)
    requires forall t :: t in before ==> before[t].target == t
    ensures deletions == OutputsOf(Obsolete(before, after, changed))
    ensures records == RecordsOf(Obsolete(before, after, changed))
  {
    deletions, records := {}, map[];
    var todo := before.Keys;
    ghost var obsolete := Obsolete(before, after, changed);
    assert Without(obsolete, todo) == map[];
    while todo != {}
      invariant todo <= before.Keys
      invariant deletions == OutputsOf(Without(obsolete, todo)) && records == RecordsOf(Without(obsolete, todo))
      decreases |todo|
    {
      var target :| target in todo;
      var gone := before[target];
      OneLessToDo(obsolete, todo, target);
      OneMoreOutput(Without(obsolete, todo), target, gone);
      if target !in after && (gone.source in changed || changed * gone.Inputs() != {}) {
        deletions := deletions + gone.Outputs();
        records := records[gone.target := RecordOf(gone)];
      }
      todo := todo - {target};
    }
    assert Without(obsolete, {}) == obsolete;
  }

  lemma OneMoreOutput(pubs: Publications, t: Path, p: Publication)
    requires t !in pubs
    ensures OutputsOf(pubs[t := p]) == OutputsOf(pubs) + p.Outputs()
    ensures RecordsOf(pubs[t := p]) == RecordsOf(pubs)[t := RecordOf(p)]
  {
    var more := pubs[t := p];
    forall o | o in OutputsOf(pubs) + p.Outputs() ensures o in OutputsOf(more) {
      if o in p.Outputs() {
        assert t in more && o in more[t].Outputs();
      } else {
        var u :| u in pubs && o in pubs[u].Outputs();
        assert u in more && o in more[u].Outputs();
      }
    }
  }

  /** For one rename: the publications built from the old path, already among the deletions. */
  method RenamedAway(before: Publications, after: Publications, ghost changed: set<Path>, path: Path,
                     deletions: set<Path>, records: map<Path, Record>)
    returns (deletions': set<Path>, records': map<Path, Record>)
    requires path in changed && forall t :: t in before ==> before[t].target == t
    requires deletions == OutputsOf(Obsolete(before, after, changed))
    requires records == RecordsOf(Obsolete(before, after, changed))
    ensures deletions' == deletions && records' == records
  {
    deletions', records' := deletions, records;
    var todo := before.Keys;
    while todo != {}
      invariant todo <= before.Keys && deletions' == deletions && records' == records
      decreases |todo|
    {
      var t :| t in todo;
      var gone := before[t];
      if gone.source == path && gone.target !in after {
        assert t in Obsolete(before, after, changed);
        assert forall o :: o in gone.Outputs() ==> o in deletions;
        deletions' := deletions' + gone.Outputs();
        records' := records'[gone.target := RecordOf(gone)];
      }
      todo := todo - {t};
    }
  }

  /** For one rename: the publications built from the new path, already selected. */
  method RenamedTo(after: Publications, ghost changed: set<Path>, path: Path, selected: Publications)
    returns (selected': Publications)
    requires path in changed && forall t :: t in after ==> after[t].target == t
    requires selected == Selected(after, changed)
    ensures selected' == selected
  {
    selected' := selected;
    var todo := after.Keys;
    while todo != {}
      invariant todo <= after.Keys && selected' == selected
      decreases |todo|
    {
      var t :| t in todo;
      if after[t].source == path {
        assert t in Selected(after, changed);
        selected' := selected'[after[t].target := after[t]];
      }
      todo := todo - {t};
    }
  }

  /** The rename loop. A rename puts both its paths among the changed ones, so everything it would
      add is there already. */
  method FollowRenames(before: Publications, after: Publications, changes: seq<Change>,
                       selected: Publications, deletions: set<Path>, records: map<Path, Record>)
    returns (selected': Publications, deletions': set<Path>, records': map<Path, Record>)
    requires forall t :: t in before ==> before[t].target == t
    requires forall t :: t in after ==> after[t].target == t
    requires selected == Selected(after, Changed(changes))
    requires deletions == OutputsOf(Obsolete(before, after, Changed(changes)))
    requires records == RecordsOf(Obsolete(before, after, Changed(changes)))
    ensures selected' == selected && deletions' == deletions && records' == records
  {
    selected', deletions', records' := selected, deletions, records;
    ghost var changed := Changed(changes);
    for i := 0 to |changes|
      invariant selected' == selected && deletions' == deletions && records' == records
    {
      var c := changes[i];
      assert c in changes && c.path in changed && (c.dest != "" ==> c.dest in changed);
      if c.code == 'R' && EndsWith(c.path, ".md") {
        deletions', records' := RenamedAway(before, after, changed, c.path, deletions', records');
        if c.dest != "" {
          selected' := RenamedTo(after, changed, c.dest, selected');
        }
      }
    }
  }

  /** plan_range. `before` is None for an empty or all-zero ref; the paths are those tracked under
      docs/ at the two refs. */
  method PlanRange(config: Config, zero: bool, before: set<Path>, after: set<Path>, changes: seq<Change>)
    returns (plan: Plan)
    ensures plan == if zero then ZeroPlan(PublicationsAt(config, after))
                    else RangePlan(PublicationsAt(config, before), PublicationsAt(config, after), Changed(changes))
  {
    var afterPubs := PublicationsOf(config, after);
    if zero {
      return Payload("full-zero-before", afterPubs, {}, [], map[]);
    }
    var changed := ChangedPaths(changes);
    var beforePubs := PublicationsOf(config, before);
    if changed * INFRA_PATHS != {} {
      return Payload("full-infrastructure-change", afterPubs, {}, SortedPaths(changed), map[]);
    }
    var selected := Select(afterPubs, changed);
    var deletions, records := CollectObsolete(beforePubs, afterPubs, changed);
    selected, deletions, records := FollowRenames(beforePubs, afterPubs, changes, selected, deletions, records);
    return Payload("incremental", selected, deletions, SortedPaths(changed), records);
  }

  // ----- Consequences

  /** A rename record may be replaced by a deletion and an addition. */
  lemma RenameAsDeleteAndAdd(changes: seq<Change>, i: nat)
    requires i < |changes| && changes[i].code == 'R' && changes[i].dest != ""
    ensures var c := changes[i];
            var split := changes[..i] + [Change('D', c.path, ""), Change('A', c.dest, "")] + changes[i + 1..];
            && Changed(changes) == Changed(split)
            && forall before, after ::
                 RangePlan(before, after, Changed(changes)) == RangePlan(before, after, Changed(split))
  {
    var c := changes[i];
    var pair := [Change('D', c.path, ""), Change('A', c.dest, "")];
    assert changes == changes[..i] + [c] + changes[i + 1..];
    assert pair[0] in pair && pair[1] in pair;
    assert Changed([c]) == {c.path, c.dest} == Changed(pair);
    ChangedInside(changes[..i], [c], pair, changes[i + 1..]);
  }

  lemma ChangedInside(a: seq<Change>, b: seq<Change>, c: seq<Change>, d: seq<Change>)
    requires Changed(b) == Changed(c)
    ensures Changed(a + b + d) == Changed(a + c + d)
  {
    ChangedConcat(a, b);
    ChangedConcat(a + b, d);
    ChangedConcat(a, c);
    ChangedConcat(a + c, d);
  }

  lemma ChangedConcat(a: seq<Change>, b: seq<Change>)
    ensures Changed(a + b) == Changed(a) + Changed(b)
  {
  }

  /** The targets of plan_range are those of plan_paths on the changed paths. */
  lemma SameTargetsAsPaths(before: Publications, after: Publications, changed: set<Path>)
    ensures RangePlan(before, after, changed).targets == PathsPlan(after, changed).targets
  {
  }

  lemma PlannedDeletion(before: Publications, after: Publications, changed: set<Path>, o: Path)
    ensures o in RangePlan(before, after, changed).deletions <==>
              && changed * INFRA_PATHS == {}
              && exists t :: t in Obsolete(before, after, changed) && o in before[t].Outputs()
  {
  }

  /** Deleting is safe: what is deleted is the target of a publication that is gone. Nothing that is
      still a target is deleted, for any configuration, trees and diff. */
  lemma DeletionIsSafe(config: Config, before: set<Path>, after: set<Path>, changed: set<Path>, o: Path)
    requires config.Valid()
    requires o in RangePlan(PublicationsAt(config, before), PublicationsAt(config, after), changed).deletions
    ensures o in PublicationsAt(config, before) && o !in PublicationsAt(config, after)
  {
    var b, a := PublicationsAt(config, before), PublicationsAt(config, after);
    PlannedDeletion(b, a, changed, o);
    var t :| t in Obsolete(b, a, changed) && o in b[t].Outputs();
    CompositesAlwaysPublished(config, before, after, t);
  }

  /** Exactly the targets of touched publications that are gone are deleted, unless the plan is a full
      one. Such a PDF may still be an input of a current publication, or one of its other outputs. */
  lemma DeletionsAre(config: Config, before: set<Path>, after: set<Path>, changed: set<Path>, x: Path)
    requires config.Valid()
    ensures var b, a := PublicationsAt(config, before), PublicationsAt(config, after);
            x in RangePlan(b, a, changed).deletions <==>
              changed * INFRA_PATHS == {} && x in b && x !in a && Touched(b[x], changed)
  {
    var b, a := PublicationsAt(config, before), PublicationsAt(config, after);
    PlannedDeletion(b, a, changed, x);
    forall t | t in Obsolete(b, a, changed) ensures b[t].Outputs() == {t} {
      CompositesAlwaysPublished(config, before, after, t);
    }
    if x in Obsolete(b, a, changed) {
      assert x in b[x].Outputs();
    }
  }

  /** Deleting is complete: a publication that is gone and whose source or inputs were touched has
      all its outputs deleted, unless the plan is a full one. */
  lemma DeletionIsComplete(before: Publications, after: Publications, changed: set<Path>, t: Path, o: Path)
    requires t in before && t !in after && Touched(before[t], changed) && o in before[t].Outputs()
    requires changed * INFRA_PATHS == {}
    ensures o in RangePlan(before, after, changed).deletions
  {
    assert t in Obsolete(before, after, changed);
    PlannedDeletion(before, after, changed, o);
  }

  // ----- What a plan holds

  /** The default dependency, the source, adds nothing. */
  lemma TouchedIs(p: Publication, changed: set<Path>)
    ensures Touched(p, changed) <==> p.source in changed || exists d :: d in p.dependencies && d in changed
  {
    if d :| d in p.dependencies && d in changed {
      assert d in changed * p.Inputs();
    }
    if x :| x in changed * p.Inputs() {
      assert x == p.source || x in p.dependencies;
    }
  }

  /** The changed paths of a printed diff: every path named, and of renames and copies the new one. */
  lemma ChangedIs(records: seq<RawRecord>, x: Path)
    requires AllWellFormed(records)
    ensures x in Changed(TrimAll(records)) <==>
              exists r :: r in records &&
                (x == r.path || (x == r.dest && x != "" && (r.status[0] == 'R' || r.status[0] == 'C')))
  {
    var changes := TrimAll(records);
    if x in Changed(changes) {
      var c :| c in changes && (c.path == x || (c.dest != "" && c.dest == x));
      var i :| 0 <= i < |changes| && changes[i] == c;
      assert records[i] in records;
    }
    if r :| r in records
            && (x == r.path || (x == r.dest && x != "" && (r.status[0] == 'R' || r.status[0] == 'C')))
    {
      var i :| 0 <= i < |records| && records[i] == r;
      assert changes[i] in changes && changes[i] == Trim(r);
    }
  }

  ghost predicate KeyedByTarget(pubs: Publications) { forall t :: t in pubs ==> pubs[t].target == t }

  ghost predicate TargetsAscend(ps: seq<Publication>) {
    forall i, j :: 0 <= i < j < |ps| ==> AtMost(ps[i].target, ps[j].target) && ps[i].target != ps[j].target
  }

  ghost predicate RecordsAscend(rs: seq<Record>) {
    forall i, j :: 0 <= i < j < |rs| ==> AtMost(rs[i].target, rs[j].target) && rs[i].target != rs[j].target
  }

  /** Everything in a plan comes in the order of paths. */
  ghost predicate PlanInOrder(plan: Plan) {
    && Ascending(AtMost, plan.changed) && Ascending(AtMost, plan.deletions)
    && TargetsAscend(plan.targets) && RecordsAscend(plan.records)
  }

  ghost predicate ListsTargets(ps: seq<Publication>, pubs: Publications) {
    TargetsAscend(ps) && forall p :: p in ps <==> p.target in pubs && pubs[p.target] == p
  }

  ghost predicate ListsRecords(rs: seq<Record>, gone: Publications) {
    RecordsAscend(rs) && forall r :: r in rs <==> Records(r, gone)
  }

  lemma TargetsListed(ps: seq<Publication>, pubs: Publications, keys: seq<Path>)
    requires KeyedByTarget(pubs) && Ascending(AtMost, keys) && forall t :: t in keys <==> t in pubs
    requires |ps| == |keys| && forall i :: 0 <= i < |ps| ==> keys[i] in pubs && ps[i] == pubs[keys[i]]
    ensures ListsTargets(ps, pubs)
  {
    forall p: Publication | p.target in pubs && pubs[p.target] == p ensures p in ps {
      assert p.target in keys;
      var i :| 0 <= i < |keys| && keys[i] == p.target;
      assert ps[i] == p;
    }
  }

  predicate Records(r: Record, gone: Publications) {
    r.target in gone && r == Record(gone[r.target].source, r.target, gone[r.target].Outputs())
  }

  lemma RecordsListed(rs: seq<Record>, gone: Publications, keys: seq<Path>)
    requires KeyedByTarget(gone) && Ascending(AtMost, keys) && forall t :: t in keys <==> t in gone
    requires |rs| == |keys| && forall i :: 0 <= i < |rs| ==> keys[i] in gone && rs[i] == RecordOf(gone[keys[i]])
    ensures ListsRecords(rs, gone)
  {
    forall r | Records(r, gone) ensures r in rs {
      assert r.target in keys;
      var i :| 0 <= i < |keys| && keys[i] == r.target;
      assert rs[i] == r;
    }
  }

  ghost predicate PlanHolds(plan: Plan, reason: string, pubs: Publications, deletions: set<Path>, changed: set<Path>,
                            gone: Publications)
  {
    && plan.reason == reason
    && plan.changed == SortedPaths(changed) && plan.deletions == SortedPaths(deletions)
    && ListsTargets(plan.targets, pubs) && ListsRecords(plan.records, gone)
  }

  lemma PayloadListsTargets(reason: string, pubs: Publications, deletions: set<Path>, changed: seq<Path>,
                            records: map<Path, Record>)
    requires KeyedByTarget(pubs)
    ensures ListsTargets(Payload(reason, pubs, deletions, changed, records).targets, pubs)
  {
    var keys := SortedPaths(pubs.Keys);
    forall i | 0 <= i < |keys| ensures keys[i] in pubs {
      assert keys[i] in keys;
    }
    TargetsListed(Payload(reason, pubs, deletions, changed, records).targets, pubs, keys);
  }

  lemma PayloadListsRecords(reason: string, pubs: Publications, deletions: set<Path>, changed: seq<Path>,
                            gone: Publications)
    requires KeyedByTarget(gone)
    ensures ListsRecords(Payload(reason, pubs, deletions, changed, RecordsOf(gone)).records, gone)
  {
    var keys := SortedPaths(RecordsOf(gone).Keys);
    forall i | 0 <= i < |keys| ensures keys[i] in gone {
      assert keys[i] in keys;
    }
    RecordsListed(Payload(reason, pubs, deletions, changed, RecordsOf(gone)).records, gone, keys);
  }

  lemma PayloadIs(reason: string, pubs: Publications, deletions: set<Path>, changed: set<Path>, gone: Publications)
    requires KeyedByTarget(pubs) && KeyedByTarget(gone)
    ensures PlanHolds(Payload(reason, pubs, deletions, SortedPaths(changed), RecordsOf(gone)),
                      reason, pubs, deletions, changed, gone)
  {
    PayloadListsTargets(reason, pubs, deletions, SortedPaths(changed), RecordsOf(gone));
    PayloadListsRecords(reason, pubs, deletions, SortedPaths(changed), gone);
  }

  /** What a plan rebuilds: everything published, or what the changed paths touch. */
  ghost predicate Rebuilds(plan: Plan, a: Publications, changed: set<Path>, full: bool) {
    forall p :: p in plan.targets <==> p.target in a && a[p.target] == p && (full || Touched(p, changed))
  }

  /** What it records as gone. */
  ghost predicate RecordsGone(plan: Plan, b: Publications, a: Publications, changed: set<Path>, full: bool) {
    forall r :: r in plan.records <==> !full && Records(r, b) && r.target !in a && Touched(b[r.target], changed)
  }

  ghost predicate Names(plan: Plan, reason: string, changed: set<Path>) {
    PlanInOrder(plan) && plan.reason == reason && forall x :: x in plan.changed <==> x in changed
  }

  lemma RangePlanIs(b: Publications, a: Publications, changed: set<Path>)
    requires KeyedByTarget(b) && KeyedByTarget(a)
    ensures var plan, full := RangePlan(b, a, changed), changed * INFRA_PATHS != {};
            && Names(plan, if full then "full-infrastructure-change" else "incremental", changed)
            && Rebuilds(plan, a, changed, full) && RecordsGone(plan, b, a, changed, full)
  {
    if changed * INFRA_PATHS != {} {
      assert RecordsOf(map[]) == map[];
      PayloadIs("full-infrastructure-change", a, {}, changed, map[]);
    } else {
      IncrementalIs("incremental", b, a, changed, OutputsOf(Obsolete(b, a, changed)), Obsolete(b, a, changed));
    }
  }

  lemma IncrementalIs(reason: string, b: Publications, a: Publications, changed: set<Path>, deletions: set<Path>,
                      gone: Publications)
    requires KeyedByTarget(b) && KeyedByTarget(a)
    requires forall t :: t in gone ==> t in b && gone[t] == b[t]
    ensures var plan := Payload(reason, Selected(a, changed), deletions, SortedPaths(changed), RecordsOf(gone));
            && Names(plan, reason, changed) && Rebuilds(plan, a, changed, false)
            && forall r :: r in plan.records <==> Records(r, gone)
  {
    PayloadIs(reason, Selected(a, changed), deletions, changed, gone);
  }

  /** plan_paths: as plan_range, but nothing is deleted or recorded. */
  lemma PathsPlanIs(pubs: Publications, changed: set<Path>)
    requires KeyedByTarget(pubs)
    ensures var plan, full := PathsPlan(pubs, changed), changed * INFRA_PATHS != {};
            && Names(plan, if full then "full-infrastructure-change" else "explicit-paths", changed)
            && Rebuilds(plan, pubs, changed, full) && plan.deletions == [] && plan.records == []
  {
    assert RecordsOf(map[]) == map[];
    if changed * INFRA_PATHS != {} {
      PayloadIs("full-infrastructure-change", pubs, {}, changed, map[]);
    } else {
      IncrementalIs("explicit-paths", map[], pubs, changed, {}, map[]);
    }
  }

  /** The plans without a range: everything published, nothing deleted. */
  lemma WholePlansAre(pubs: Publications)
    requires KeyedByTarget(pubs)
    ensures Names(ZeroPlan(pubs), "full-zero-before", {}) && Names(FullPlan(pubs), "full-explicit", {})
    ensures Rebuilds(ZeroPlan(pubs), pubs, {}, true) && Rebuilds(FullPlan(pubs), pubs, {}, true)
    ensures ZeroPlan(pubs).deletions == FullPlan(pubs).deletions == []
    ensures ZeroPlan(pubs).records == FullPlan(pubs).records == []
  {
    assert RecordsOf(map[]) == map[] && SortedPaths({}) == [];
    PayloadIs("full-zero-before", pubs, {}, {}, map[]);
    PayloadIs("full-explicit", pubs, {}, {}, map[]);
  }
}

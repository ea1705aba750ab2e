/**
 The classification compiler: a manifest joined to the frozen source inventory. Skills, adapter files
 and findings must each be classified exactly once and nothing else may be.
 */
module Classification {
  import opened Bytes
  import opened Ordering
  import opened Decisions
  import opened ExactCover

  const CLASSIFICATION_MANIFEST_SCHEMA_VERSION := "tool-runtime.source-classification-manifest.v1"

  datatype FindingKey = FindingKey(skill: string, code: string, source: string)

  datatype Finding = Finding(skillId: Option<string>, code: string, source: string, isError: bool)

  datatype Inventory = Inventory(schemaVersion: string, skills: seq<SkillSource>, findings: seq<Finding>)

  datatype SkillGroup = SkillGroup(skills: seq<string>, decision: Decision)

  datatype AdapterDecision = AdapterDecision(role: AdapterRole, ownership: seq<Ownership>)

  datatype Disposition = AcceptBaseline | FixBeforePhase1 | SeparateInPhase0d

  /** An exception or a retained unknown; `resolution` is only copied. */
  datatype Note = Note(id: string, skills: seq<string>, resolution: string)

  datatype Manifest = Manifest(
    schemaVersion: string,
    inventorySchemaVersion: string,
    skillGroups: seq<SkillGroup>,
    adapterGroups: seq<AdapterGroup>,
    dispositions: seq<Entry<FindingKey, Disposition>>,
    exceptions: seq<Note>,
    unknowns: seq<Note>)

  /** The normalized artifact; a map stands for its values in key order. */
  datatype Output = Output(
    skills: map<string, Decision>,
    adapters: map<AdapterFile, AdapterDecision>,
    dispositions: map<FindingKey, Disposition>,
    exceptions: seq<Note>,
    unknowns: seq<Note>)

  // ----- Expected keys

  function SkillIds(inventory: Inventory): set<string> {
    set source | source in inventory.skills :: source.id
  }

  /** The source a map built in inventory order holds for an id: the last one listed. */
  function LastSource(skills: seq<SkillSource>, id: string): (source: SkillSource)
    requires exists s :: s in skills && s.id == id
    ensures source in skills && source.id == id
  {
    var last := skills[|skills| - 1];
    if last.id == id then last
    else
      assert skills == skills[..|skills| - 1] + [last];
      LastSource(skills[..|skills| - 1], id)
  }

  /** The source a search in inventory order finds for an id: the first one listed. */
  function FirstSource(skills: seq<SkillSource>, id: string): (source: SkillSource)
    requires exists s :: s in skills && s.id == id
    ensures source in skills && source.id == id
  {
    if skills[0].id == id then skills[0]
    else
      assert skills == [skills[0]] + skills[1..];
      FirstSource(skills[1..], id)
  }

  /** Where the last source with an id is listed. */
  lemma {:induction false} LastSourceIsLast(skills: seq<SkillSource>, id: string) returns (k: nat)
    requires exists s :: s in skills && s.id == id
    ensures k < |skills| && skills[k] == LastSource(skills, id)
    ensures forall j :: k < j < |skills| ==> skills[j].id != id
  {
    var before, last := skills[..|skills| - 1], skills[|skills| - 1];
    if last.id == id {
      k := |skills| - 1;
    } else {
      assert skills == before + [last];
      k := LastSourceIsLast(before, id);
      assert forall j :: 0 <= j < |before| ==> skills[j] == before[j];
    }
  }

  /** Where the first source with an id is listed. */
  lemma {:induction false} FirstSourceIsFirst(skills: seq<SkillSource>, id: string) returns (k: nat)
    requires exists s :: s in skills && s.id == id
    ensures k < |skills| && skills[k] == FirstSource(skills, id)
    ensures forall j :: 0 <= j < k ==> skills[j].id != id
  {
    if skills[0].id == id {
      k := 0;
    } else {
      var rest := skills[1..];
      assert skills == [skills[0]] + rest;
      k := FirstSourceIsFirst(rest, id);
      k := k + 1;
      assert forall j :: 0 < j < |skills| ==> skills[j] == rest[j - 1];
    }
  }

  function AdapterFiles(inventory: Inventory): set<AdapterFile> {
    set source, path | source in inventory.skills && path in source.adapterFiles :: AdapterFile(source.id, path)
  }

  function KeyOf(finding: Finding): FindingKey {
    FindingKey(if finding.skillId.Some? then finding.skillId.value else "", finding.code, finding.source)
  }

  function FindingKeys(inventory: Inventory): set<FindingKey> {
    set finding | finding in inventory.findings :: KeyOf(finding)
  }

  // ----- Authored entries

  function SkillEntries(groups: seq<SkillGroup>): seq<Entry<string, Decision>> {
    if groups == [] then []
    else GroupEntries(groups[0]) + SkillEntries(groups[1..])
  }

  function GroupEntries(group: SkillGroup): seq<Entry<string, Decision>> {
    seq(|group.skills|, i requires 0 <= i < |group.skills| => Entry(group.skills[i], group.decision))
  }

  function AdapterEntries(groups: seq<AdapterGroup>): seq<Entry<AdapterFile, AdapterDecision>> {
    if groups == [] then []
    else FileEntries(groups[0]) + AdapterEntries(groups[1..])
  }

  function FileEntries(group: AdapterGroup): seq<Entry<AdapterFile, AdapterDecision>> {
    seq(|group.files|, i requires 0 <= i < |group.files| =>
      Entry(group.files[i], AdapterDecision(group.role, group.ownership)))
  }

  // ----- Validity of single entries

  ghost function SkillValid(inventory: Inventory): Entry<string, Decision> -> bool {
    (e: Entry<string, Decision>) =>
      SafeIdentifier(e.key)
      && ((exists s :: s in inventory.skills && s.id == e.key) ==>
            DecisionSound(LastSource(inventory.skills, e.key), e.value))
  }

  function AdapterValid(): Entry<AdapterFile, AdapterDecision> -> bool {
    (e: Entry<AdapterFile, AdapterDecision>) => true
  }

  /** An error finding cannot be accepted as baseline. */
  function DispositionValid(inventory: Inventory): Entry<FindingKey, Disposition> -> bool {
    (e: Entry<FindingKey, Disposition>) =>
      !(e.value.AcceptBaseline? && exists f :: f in inventory.findings && KeyOf(f) == e.key && f.isError)
  }

  predicate IsOfficialMcp(source: SkillSource) {
    source.kind == Some("mcp") && source.program == Some("official_mcp_sdk")
  }

  /** Runtime ownership agrees with the inventoried source. */
  predicate OwnerAgrees(source: SkillSource, owner: RuntimeOwner) {
    && (owner.SkillAdapter? || owner.LegacyMcpWrapper? ==> source.adapterFiles != [])
    && (IsOfficialMcp(source) <==> owner.OfficialMcpSdk?)
    && (owner.OfficialMcpSdk? ==> source.adapterFiles == [])
  }

  ghost predicate OwnersAgree(inventory: Inventory, found: map<string, Decision>) {
    forall id :: id in found ==>
      && (exists s :: s in inventory.skills && s.id == id)
      && OwnerAgrees(FirstSource(inventory.skills, id), found[id].owner)
  }

  ghost predicate NoteOk(inventory: Inventory, note: Note) {
    && SafeIdentifier(note.id) && note.skills != []
    && (forall skill :: skill in note.skills ==> skill in SkillIds(inventory))
    && Distinct(note.skills)
  }

  ghost predicate NotesOk(inventory: Inventory, notes: seq<Note>) {
    && (forall note :: note in notes ==> NoteOk(inventory, note))
    && (forall i, j :: 0 <= i < j < |notes| ==> notes[i].id != notes[j].id)
  }

  /** A manifest the compiler accepts. */
  ghost predicate Accepted(inventory: Inventory, m: Manifest) {
    && m.schemaVersion == CLASSIFICATION_MANIFEST_SCHEMA_VERSION
    && m.inventorySchemaVersion == inventory.schemaVersion
    && (forall group :: group in m.skillGroups ==> group.skills != [])
    && Covers(SkillIds(inventory), SkillValid(inventory), SkillEntries(m.skillGroups))
    && (forall group :: group in m.adapterGroups ==> AdapterGroupSound(group))
    && Covers(AdapterFiles(inventory), AdapterValid(), AdapterEntries(m.adapterGroups))
    && OwnersAgree(inventory, Collected(SkillIds(inventory), SkillValid(inventory), SkillEntries(m.skillGroups)))
    && Covers(FindingKeys(inventory), DispositionValid(inventory), m.dispositions)
    && NotesOk(inventory, m.exceptions + m.unknowns)
  }

  function Collected<K, V>(expected: set<K>, valid: Entry<K, V> -> bool, entries: seq<Entry<K, V>>): map<K, V> {
    JoinAll(expected, valid, Join(map[], 0), entries).found
  }

  // ----- Order of the notes

  predicate StringLe(a: string, b: string) {
    a == "" || (b != "" && (a[0] < b[0] || (a[0] == b[0] && StringLe(a[1..], b[1..]))))
  }

  predicate NoteLe(a: Note, b: Note) {
    StringLe(a.id, b.id)
  }

  lemma {:induction false} StringTotal(a: string, b: string)
    ensures StringLe(a, b) || StringLe(b, a)
    ensures StringLe(a, b) && StringLe(b, a) ==> a == b
  {
    if a != "" && b != "" && a[0] == b[0] {
      StringTotal(a[1..], b[1..]);
      assert a == [a[0]] + a[1..] && b == [b[0]] + b[1..];
    }
  }

  lemma {:induction false} StringTransitive(a: string, b: string, c: string)
    requires StringLe(a, b) && StringLe(b, c)
    ensures StringLe(a, c)
  {
    if a != "" && a[0] == b[0] && b[0] == c[0] {
      StringTransitive(a[1..], b[1..], c[1..]);
    }
  }

  lemma NoteOrderIsTotal()
    ensures TotalPreorder(NoteLe)
  {
    forall a, b
      ensures NoteLe(a, b) || NoteLe(b, a)
    {
      StringTotal(a.id, b.id);
    }
    forall a, b, c | NoteLe(a, b) && NoteLe(b, c)
      ensures NoteLe(a, c)
    {
      StringTransitive(a.id, b.id, c.id);
    }
  }

  function SortedNotes(notes: seq<Note>): seq<Note> {
    NoteOrderIsTotal();
    Sort(NoteLe, notes)
  }

  /** The artifact of an accepted manifest. */
  ghost function Compiled(inventory: Inventory, m: Manifest): Output {
    Output(Collected(SkillIds(inventory), SkillValid(inventory), SkillEntries(m.skillGroups)),
           Collected(AdapterFiles(inventory), AdapterValid(), AdapterEntries(m.adapterGroups)),
           Collected(FindingKeys(inventory), DispositionValid(inventory), m.dispositions),
           SortedNotes(m.exceptions),
           SortedNotes(m.unknowns))
  }

  // ----- Laws

  /** Every decision of the artifact is sound for the source skill it classifies. */
  lemma EveryDecisionIsSound(inventory: Inventory, m: Manifest, id: string)
    requires Accepted(inventory, m) && id in Compiled(inventory, m).skills
    ensures SafeIdentifier(id) && exists s :: s in inventory.skills && s.id == id
    ensures DecisionSound(LastSource(inventory.skills, id), Compiled(inventory, m).skills[id])
  {
    hide SafeIdentifier, DecisionSound;
    ExactlyTheSources(inventory, m);
    CleanJoin(SkillIds(inventory), SkillValid(inventory), map[], SkillEntries(m.skillGroups));
    CleanJoinIsCover(SkillIds(inventory), SkillValid(inventory), SkillEntries(m.skillGroups));
    assert HasKey(SkillEntries(m.skillGroups), id);
  }

  /** The artifact classifies every source skill, adapter file and finding, and nothing else. */
  lemma ExactlyTheSources(inventory: Inventory, m: Manifest)
    requires Accepted(inventory, m)
    ensures Compiled(inventory, m).skills.Keys == SkillIds(inventory)
    ensures Compiled(inventory, m).adapters.Keys == AdapterFiles(inventory)
    ensures Compiled(inventory, m).dispositions.Keys == FindingKeys(inventory)
  {
    CleanJoinIsCover(SkillIds(inventory), SkillValid(inventory), SkillEntries(m.skillGroups));
    CleanJoinIsCover(AdapterFiles(inventory), AdapterValid(), AdapterEntries(m.adapterGroups));
    CleanJoinIsCover(FindingKeys(inventory), DispositionValid(inventory), m.dispositions);
  }

  lemma {:induction false} EntryFromGroup(groups: seq<AdapterGroup>, e: Entry<AdapterFile, AdapterDecision>)
    requires e in AdapterEntries(groups)
    ensures exists group :: group in groups && e.value == AdapterDecision(group.role, group.ownership)
  {
    if e in FileEntries(groups[0]) {
      assert groups[0] in groups;
    } else {
      EntryFromGroup(groups[1..], e);
    }
  }

  /** In the artifact a file is owned as no wrapper exactly when its role wraps nothing. */
  lemma OwnershipFitsRole(inventory: Inventory, m: Manifest, file: AdapterFile)
    requires Accepted(inventory, m) && file in Compiled(inventory, m).adapters
    ensures var d := Compiled(inventory, m).adapters[file];
      && Distinct(d.ownership)
      && (RequiredOwnership(d.role).None? <==> d.ownership == [NotWrapper])
      && (RequiredOwnership(d.role).Some? ==> RequiredOwnership(d.role).value in d.ownership && NotWrapper !in d.ownership)
  {
    ExactlyTheSources(inventory, m);
    var entries := AdapterEntries(m.adapterGroups);
    CleanJoin(AdapterFiles(inventory), AdapterValid(), map[], entries);
    CleanJoinIsCover(AdapterFiles(inventory), AdapterValid(), entries);
    assert HasKey(entries, file);
    var e :| e in entries && e.key == file;
    EntryFromGroup(m.adapterGroups, e);
    var group :| group in m.adapterGroups && e.value == AdapterDecision(group.role, group.ownership);
    assert AdapterGroupSound(group);
  }

  lemma {:induction false} SkillEntriesAppend(a: seq<SkillGroup>, b: seq<SkillGroup>)
    ensures SkillEntries(a + b) == SkillEntries(a) + SkillEntries(b)
  {
    if a == [] {
      assert a + b == b;
    } else {
      assert (a + b)[1..] == a[1..] + b;
      SkillEntriesAppend(a[1..], b);
    }
  }

  lemma {:induction false} AdapterEntriesAppend(a: seq<AdapterGroup>, b: seq<AdapterGroup>)
    ensures AdapterEntries(a + b) == AdapterEntries(a) + AdapterEntries(b)
  {
    if a == [] {
      assert a + b == b;
    } else {
      assert (a + b)[1..] == a[1..] + b;
      AdapterEntriesAppend(a[1..], b);
    }
  }

  /** Where an element of one arrangement stands in another, and that removing it keeps them alike. */
  lemma PickFrom<T>(a: seq<T>, b: seq<T>) returns (k: nat)
    requires a != [] && multiset(a) == multiset(b)
    ensures k < |b| && b[k] == a[0]
    ensures b == b[..k] + [b[k]] + b[k + 1..]
    ensures multiset(a[1..]) == multiset(b[..k] + b[k + 1..])
  {
    assert a == [a[0]] + a[1..];
    assert a[0] in multiset(b);
    k :| 0 <= k < |b| && b[k] == a[0];
    assert b == b[..k] + [b[k]] + b[k + 1..];
    assert multiset(b[..k] + b[k + 1..]) == multiset(b) - multiset{a[0]};
    assert multiset(a[1..]) == multiset(a) - multiset{a[0]};
  }

  lemma {:induction false} SkillEntriesIgnoreOrder(a: seq<SkillGroup>, b: seq<SkillGroup>)
    requires multiset(a) == multiset(b)
    ensures multiset(SkillEntries(a)) == multiset(SkillEntries(b))
    decreases |a|
  {
    if a == [] {
      assert |multiset(b)| == 0;
    } else {
      var k := PickFrom(a, b);
      SkillEntriesIgnoreOrder(a[1..], b[..k] + b[k + 1..]);
      SkillEntriesAppend(b[..k], b[k + 1..]);
      SkillEntriesAppend(b[..k] + [b[k]], b[k + 1..]);
      SkillEntriesAppend(b[..k], [b[k]]);
      assert SkillEntries([b[k]]) == GroupEntries(a[0]) + SkillEntries([]);
    }
  }

  lemma {:induction false} AdapterEntriesIgnoreOrder(a: seq<AdapterGroup>, b: seq<AdapterGroup>)
    requires multiset(a) == multiset(b)
    ensures multiset(AdapterEntries(a)) == multiset(AdapterEntries(b))
    decreases |a|
  {
    if a == [] {
      assert |multiset(b)| == 0;
    } else {
      var k := PickFrom(a, b);
      AdapterEntriesIgnoreOrder(a[1..], b[..k] + b[k + 1..]);
      AdapterEntriesAppend(b[..k], b[k + 1..]);
      AdapterEntriesAppend(b[..k] + [b[k]], b[k + 1..]);
      AdapterEntriesAppend(b[..k], [b[k]]);
      assert AdapterEntries([b[k]]) == FileEntries(a[0]) + AdapterEntries([]);
    }
  }

  lemma {:induction false} NoteIdsIgnoreOrder(a: seq<Note>, b: seq<Note>)
    requires multiset(a) == multiset(b)
    requires forall i, j :: 0 <= i < j < |a| ==> a[i].id != a[j].id
    ensures forall i, j :: 0 <= i < j < |b| ==> b[i].id != b[j].id
    decreases |a|
  {
    if a != [] {
      var k := PickFrom(b, a);
      var rest := a[..k] + a[k + 1..];
      NoteIdsIgnoreOrder(rest, b[1..]);
      SameMembers(b[1..], rest);
      forall i, j | 0 <= i < j < |b|
        ensures b[i].id != b[j].id
      {
        assert b[j] == b[1..][j - 1] && b[j] in rest;
        if i == 0 {
          var n :| 0 <= n < |rest| && rest[n] == b[j];
          assert a[if n < k then n else n + 1] == b[j];
        } else {
          assert b[i] == b[1..][i - 1];
        }
      }
    } else {
      assert |multiset(b)| == 0;
    }
  }

  lemma NotesSortAlike(a: seq<Note>, b: seq<Note>)
    requires multiset(a) == multiset(b)
    requires forall i, j :: 0 <= i < j < |a| ==> a[i].id != a[j].id
    ensures SortedNotes(a) == SortedNotes(b)
  {
    NoteOrderIsTotal();
    SameMembers(SortedNotes(a), a);
    forall x, y | x in SortedNotes(a) && y in SortedNotes(a) && NoteLe(x, y) && NoteLe(y, x)
      ensures x == y
    {
      StringTotal(x.id, y.id);
      assert x in a && y in a;
    }
    SortedIsUnique(NoteLe, SortedNotes(a), SortedNotes(b));
  }

  /** The same manifest with its lists in another order. */
  ghost predicate Rearranged(a: Manifest, b: Manifest) {
    && a.schemaVersion == b.schemaVersion && a.inventorySchemaVersion == b.inventorySchemaVersion
    && multiset(a.skillGroups) == multiset(b.skillGroups)
    && multiset(a.adapterGroups) == multiset(b.adapterGroups)
    && multiset(a.dispositions) == multiset(b.dispositions)
    && multiset(a.exceptions) == multiset(b.exceptions)
    && multiset(a.unknowns) == multiset(b.unknowns)
  }

  lemma NotesRearranged(inventory: Inventory, a: Manifest, b: Manifest)
    requires Rearranged(a, b) && NotesOk(inventory, a.exceptions + a.unknowns)
    ensures NotesOk(inventory, b.exceptions + b.unknowns)
    ensures SortedNotes(a.exceptions) == SortedNotes(b.exceptions)
    ensures SortedNotes(a.unknowns) == SortedNotes(b.unknowns)
  {
    var one, other := a.exceptions + a.unknowns, b.exceptions + b.unknowns;
    assert multiset(one) == multiset(a.exceptions) + multiset(a.unknowns);
    assert multiset(other) == multiset(b.exceptions) + multiset(b.unknowns);
    SameMembers(one, other);
    NoteIdsIgnoreOrder(one, other);
    forall i, j | 0 <= i < j < |a.exceptions|
      ensures a.exceptions[i].id != a.exceptions[j].id
    {
      assert one[i] == a.exceptions[i] && one[j] == a.exceptions[j];
    }
    forall i, j | 0 <= i < j < |a.unknowns|
      ensures a.unknowns[i].id != a.unknowns[j].id
    {
      assert one[|a.exceptions| + i] == a.unknowns[i] && one[|a.exceptions| + j] == a.unknowns[j];
    }
    NotesSortAlike(a.exceptions, b.exceptions);
    NotesSortAlike(a.unknowns, b.unknowns);
  }

  /** Rearranging a manifest changes neither its acceptance nor its artifact. */
  lemma OrderDoesNotMatter(inventory: Inventory, a: Manifest, b: Manifest)
    requires Rearranged(a, b) && Accepted(inventory, a)
    ensures Accepted(inventory, b)
    ensures Compiled(inventory, a) == Compiled(inventory, b)
  {
    SameMembers(a.skillGroups, b.skillGroups);
    SameMembers(a.adapterGroups, b.adapterGroups);
    SkillEntriesIgnoreOrder(a.skillGroups, b.skillGroups);
    AdapterEntriesIgnoreOrder(a.adapterGroups, b.adapterGroups);
    CoverIgnoresOrder(SkillIds(inventory), SkillValid(inventory),
                      SkillEntries(a.skillGroups), SkillEntries(b.skillGroups));
    CoverIgnoresOrder(AdapterFiles(inventory), AdapterValid(),
                      AdapterEntries(a.adapterGroups), AdapterEntries(b.adapterGroups));
    CoverIgnoresOrder(FindingKeys(inventory), DispositionValid(inventory), a.dispositions, b.dispositions);
    NotesRearranged(inventory, a, b);
  }

  // ----- The compiler

  /** Offers the entries one after another. */
  method JoinEntries<K(==), V>(expected: set<K>, valid: Entry<K, V> -> bool, from: Join<K, V>, entries: seq<Entry<K, V>>)
    returns (join: Join<K, V>)
    ensures join == JoinAll(expected, valid, from, entries)
  {
    var found, errors := from.found, from.errors;
    var i := 0;
    assert entries[0..] == entries;
    while i < |entries|
      invariant i <= |entries|
      invariant JoinAll(expected, valid, Join(found, errors), entries[i..]) == JoinAll(expected, valid, from, entries)
    {
      var e := entries[i];
      assert entries[i..][0] == e && entries[i..][1..] == entries[i + 1..];
      if e.key !in expected {
        errors := errors + 1;
      } else if e.key in found {
        errors := errors + 1;
      } else {
        if !valid(e) {
          errors := errors + 1;
        }
        found := found[e.key := e.value];
      }
      i := i + 1;
    }
    join := Join(found, errors);
  }

  /** Offers the skills of one group, behind the entries of the groups before it. */
  method JoinGroup(inventory: Inventory, group: SkillGroup, from: Join<string, Decision>,
                   ghost before: seq<Entry<string, Decision>>)
    returns (join: Join<string, Decision>)
    requires Alike(from, JoinAll(SkillIds(inventory), SkillValid(inventory), Join(map[], 0), before))
    ensures Alike(join, JoinAll(SkillIds(inventory), SkillValid(inventory), Join(map[], 0), before + GroupEntries(group)))
  {
    hide SafeIdentifier, DecisionSound, Alike, JoinAll;
    var found, errors := from.found, from.errors;
    ghost var entries := before + GroupEntries(group);
    assert entries[..|before|] == before;
    for i := 0 to |group.skills|
      invariant Alike(Join(found, errors), JoinAll(SkillIds(inventory), SkillValid(inventory), Join(map[], 0), entries[..|before| + i]))
    {
      var id := group.skills[i];
      ghost var now := Join(found, errors);
      var problems := ValidateIdentifier(id);
      errors := errors + problems;
      if id !in SkillIds(inventory) {
        errors := errors + 1;
      } else if id in found {
        errors := errors + 1;
      } else {
        problems := ValidateSkillGroup(LastSource(inventory.skills, id), group.decision);
        errors := errors + problems;
        found := found[id := group.decision];
      }
      assert entries[|before| + i] == Entry(id, group.decision);
      OfferedAlike(inventory, now, Entry(id, group.decision), Join(found, errors));
      AlikeStep(SkillIds(inventory), SkillValid(inventory), entries, |before| + i, now, Join(found, errors));
    }
    assert entries[..|before| + |group.skills|] == entries;
    join := Join(found, errors);
  }

  lemma OfferedAlike(inventory: Inventory, join: Join<string, Decision>, e: Entry<string, Decision>, next: Join<string, Decision>)
    requires join.errors <= next.errors
    requires e.key !in SkillIds(inventory) || e.key in join.found ==> join.errors < next.errors
    requires e.key in SkillIds(inventory) && e.key !in join.found ==>
      && next.found == join.found[e.key := e.value]
      && (next.errors == join.errors <==>
            SafeIdentifier(e.key) && DecisionSound(LastSource(inventory.skills, e.key), e.value))
    ensures join.errors > 0 ==> next.errors > 0
    ensures join.errors == 0 ==> Alike(next, Offer(SkillIds(inventory), SkillValid(inventory), join, e))
  {
    hide SafeIdentifier, DecisionSound;
  }

  method JoinSkillGroups(inventory: Inventory, groups: seq<SkillGroup>)
    returns (join: Join<string, Decision>, emptyGroups: nat)
    ensures Alike(join, JoinAll(SkillIds(inventory), SkillValid(inventory), Join(map[], 0), SkillEntries(groups)))
    ensures emptyGroups == 0 <==> forall group :: group in groups ==> group.skills != []
  {
    hide Alike, SkillValid;
    join, emptyGroups := Join(map[], 0), 0;
    assert Alike(join, join) by {
      SameIsAlike(join);
    }
    for i := 0 to |groups|
      invariant Alike(join, JoinAll(SkillIds(inventory), SkillValid(inventory), Join(map[], 0), SkillEntries(groups[..i])))
      invariant emptyGroups == 0 <==> forall k :: 0 <= k < i ==> groups[k].skills != []
    {
      var group := groups[i];
      assert groups[..i + 1] == groups[..i] + [group];
      SkillEntriesAppend(groups[..i], [group]);
      assert SkillEntries([group]) == GroupEntries(group) + SkillEntries([]) == GroupEntries(group);
      if group.skills == [] {
        assert SkillEntries(groups[..i]) + GroupEntries(group) == SkillEntries(groups[..i]);
        emptyGroups := emptyGroups + 1;
      } else {
        join := JoinGroup(inventory, group, join, SkillEntries(groups[..i]));
      }
    }
    assert groups[..|groups|] == groups;
  }

  lemma SameIsAlike<K, V>(join: Join<K, V>)
    ensures Alike(join, join)
  {
  }

  /** Offers the dispositions: a later one for the same finding is reported and replaces the earlier one. */
  method JoinDispositions(inventory: Inventory, dispositions: seq<Entry<FindingKey, Disposition>>)
    returns (join: Join<FindingKey, Disposition>)
    ensures Alike(join, JoinAll(FindingKeys(inventory), DispositionValid(inventory), Join(map[], 0), dispositions))
  {
    var found: map<FindingKey, Disposition>, errors := map[], 0;
    for i := 0 to |dispositions|
      invariant Alike(Join(found, errors),
                      JoinAll(FindingKeys(inventory), DispositionValid(inventory), Join(map[], 0), dispositions[..i]))
    {
      var e := dispositions[i];
      ghost var now := Join(found, errors);
      if e.key !in FindingKeys(inventory) {
        errors := errors + 1;
      } else if e.value == AcceptBaseline && exists f :: f in inventory.findings && KeyOf(f) == e.key && f.isError {
        errors := errors + 1;
      } else {
        if e.key in found {
          errors := errors + 1;
        }
        found := found[e.key := e.value];
      }
      AlikeStep(FindingKeys(inventory), DispositionValid(inventory), dispositions, i, now, Join(found, errors));
    }
    assert dispositions[..|dispositions|] == dispositions;
    join := Join(found, errors);
  }

  method JoinAdapterGroups(inventory: Inventory, groups: seq<AdapterGroup>)
    returns (join: Join<AdapterFile, AdapterDecision>, problems: nat)
    ensures join == JoinAll(AdapterFiles(inventory), AdapterValid(), Join(map[], 0), AdapterEntries(groups))
    ensures problems == 0 <==> forall group :: group in groups ==> AdapterGroupSound(group)
  {
    join, problems := Join(map[], 0), 0;
    for i := 0 to |groups|
      invariant join == JoinAll(AdapterFiles(inventory), AdapterValid(), Join(map[], 0), AdapterEntries(groups[..i]))
      invariant problems == 0 <==> forall k :: 0 <= k < i ==> AdapterGroupSound(groups[k])
    {
      var group := groups[i];
      assert groups[..i + 1] == groups[..i] + [group];
      AdapterEntriesAppend(groups[..i], [group]);
      assert AdapterEntries([group]) == FileEntries(group) + AdapterEntries([]) == FileEntries(group);
      JoinAllAppend(AdapterFiles(inventory), AdapterValid(), Join(map[], 0),
                    AdapterEntries(groups[..i]), FileEntries(group));
      var more := ValidateAdapterGroup(group);
      problems := problems + more;
      join := JoinEntries(AdapterFiles(inventory), AdapterValid(), join, FileEntries(group));
    }
    assert groups[..|groups|] == groups;
  }

  method CheckOwners(inventory: Inventory, found: map<string, Decision>) returns (ok: bool)
    ensures ok <==> OwnersAgree(inventory, found)
  {
    var unseen := found.Keys;
    while unseen != {}
      invariant unseen <= found.Keys
      invariant forall id :: id in found && id !in unseen ==>
        && (exists s :: s in inventory.skills && s.id == id)
        && OwnerAgrees(FirstSource(inventory.skills, id), found[id].owner)
      decreases |unseen|
    {
      var id :| id in unseen;
      unseen := unseen - {id};
      if !(exists s :: s in inventory.skills && s.id == id) {
        return false;
      }
      if !OwnerAgrees(FirstSource(inventory.skills, id), found[id].owner) {
        return false;
      }
    }
    return true;
  }

  /** The skills of one note: present, known, and each named once. */
  method CheckNote(inventory: Inventory, note: Note) returns (ok: bool)
    ensures ok <==> NoteOk(inventory, note)
  {
    var problems := ValidateIdentifier(note.id);
    if problems > 0 || note.skills == [] {
      return false;
    }
    var seen: set<string> := {};
    for i := 0 to |note.skills|
      invariant seen == set k | 0 <= k < i :: note.skills[k]
      invariant forall k :: 0 <= k < i ==> note.skills[k] in SkillIds(inventory)
      invariant Distinct(note.skills[..i])
    {
      if note.skills[i] !in SkillIds(inventory) {
        return false;
      }
      if note.skills[i] in seen {
        return false;
      }
      seen := seen + {note.skills[i]};
    }
    assert note.skills[..|note.skills|] == note.skills;
    return true;
  }

  method CheckNotes(inventory: Inventory, notes: seq<Note>) returns (ok: bool)
    ensures ok <==> NotesOk(inventory, notes)
  {
    hide NoteOk;
    var ids: set<string> := {};
    for i := 0 to |notes|
      invariant ids == set k | 0 <= k < i :: notes[k].id
      invariant forall k :: 0 <= k < i ==> NoteOk(inventory, notes[k])
      invariant forall k, j :: 0 <= k < j < i ==> notes[k].id != notes[j].id
    {
      if notes[i].id in ids {
        return false;
      }
      ids := ids + {notes[i].id};
      var fine := CheckNote(inventory, notes[i]);
      if !fine {
        return false;
      }
    }
    return true;
  }

  /** Accepts exactly the manifests that cover the inventory, and yields their artifact. */
  method Compile(inventory: Inventory, m: Manifest) returns (r: Option<Output>)
    ensures r.Some? <==> Accepted(inventory, m)
    ensures r.Some? ==> r.value == Compiled(inventory, m)
  {
    hide Covers, OwnersAgree, NotesOk, SkillEntries, AdapterEntries, SortedBy;
    var versions := m.schemaVersion == CLASSIFICATION_MANIFEST_SCHEMA_VERSION
      && m.inventorySchemaVersion == inventory.schemaVersion;
    var skills, emptyGroups := JoinSkillGroups(inventory, m.skillGroups);
    var allSkills := skills.errors == 0 && SkillIds(inventory) <= skills.found.Keys;
    CleanJoinIsCover(SkillIds(inventory), SkillValid(inventory), SkillEntries(m.skillGroups));
    var adapters, problems := JoinAdapterGroups(inventory, m.adapterGroups);
    var allAdapters := adapters.errors == 0 && AdapterFiles(inventory) <= adapters.found.Keys;
    CleanJoinIsCover(AdapterFiles(inventory), AdapterValid(), AdapterEntries(m.adapterGroups));
    var owners := CheckOwners(inventory, skills.found);
    var dispositions := JoinDispositions(inventory, m.dispositions);
    var allFindings := dispositions.errors == 0 && FindingKeys(inventory) <= dispositions.found.Keys;
    CleanJoinIsCover(FindingKeys(inventory), DispositionValid(inventory), m.dispositions);
    var notes := CheckNotes(inventory, m.exceptions + m.unknowns);
    if !(versions && emptyGroups == 0 && allSkills && problems == 0 && allAdapters && owners && allFindings && notes) {
      return None;
    }
    r := Some(Output(skills.found, adapters.found, dispositions.found,
                     SortedNotes(m.exceptions), SortedNotes(m.unknowns)));
  }
}

/**
 What an accepted manifest says, read off the manifest itself: at which places of its groups every source
 skill and adapter file is named, and what the artifact takes over from there.
 */
module ClassificationMeaning {
  import opened Bytes
  import opened Ordering
  import opened Decisions
  import opened ExactCover
  import opened Classification

  // ----- Places

  /** The entries of the groups before `g`. */
  function Before(groups: seq<SkillGroup>, g: nat): nat
    requires g <= |groups|
  {
    if g == 0 then 0 else Before(groups, g - 1) + |groups[g - 1].skills|
  }

  /** Place `i` of group `g` is one entry, and its number grows from place to place and group to group. */
  lemma {:induction false} EntryAt(groups: seq<SkillGroup>, g: nat, i: nat)
    requires g < |groups| && i < |groups[g].skills|
    ensures Before(groups, g) + i < |SkillEntries(groups)|
    ensures SkillEntries(groups)[Before(groups, g) + i] == Entry(groups[g].skills[i], groups[g].decision)
  {
    BeforeIsPrefix(groups, g);
    assert groups == groups[..g] + [groups[g]] + groups[g + 1..];
    SkillEntriesAppend(groups[..g] + [groups[g]], groups[g + 1..]);
    SkillEntriesAppend(groups[..g], [groups[g]]);
    assert SkillEntries([groups[g]]) == GroupEntries(groups[g]) + SkillEntries([]);
  }

  lemma {:induction false} BeforeIsPrefix(groups: seq<SkillGroup>, g: nat)
    requires g <= |groups|
    ensures Before(groups, g) == |SkillEntries(groups[..g])|
  {
    if g > 0 {
      BeforeIsPrefix(groups, g - 1);
      assert groups[..g] == groups[..g - 1] + [groups[g - 1]];
      SkillEntriesAppend(groups[..g - 1], [groups[g - 1]]);
      assert SkillEntries([groups[g - 1]]) == GroupEntries(groups[g - 1]) + SkillEntries([]);
    }
  }

  /** Every entry stands at some place. */
  lemma {:induction false} PlaceOf(groups: seq<SkillGroup>, k: nat, n: nat) returns (g: nat, i: nat)
    requires n <= |groups| && k < Before(groups, n)
    ensures g < n && i < |groups[g].skills| && k == Before(groups, g) + i
  {
    if k >= Before(groups, n - 1) {
      g, i := n - 1, k - Before(groups, n - 1);
    } else {
      g, i := PlaceOf(groups, k, n - 1);
    }
  }

  lemma {:induction false} BeforeGrows(groups: seq<SkillGroup>, g: nat, h: nat)
    requires g < h <= |groups|
    ensures Before(groups, g) + |groups[g].skills| <= Before(groups, h)
  {
    if g + 1 < h {
      BeforeGrows(groups, g, h - 1);
    }
  }

  /** The skill named at a place. */
  predicate Named(groups: seq<SkillGroup>, g: int, i: int, id: string) {
    0 <= g < |groups| && 0 <= i < |groups[g].skills| && groups[g].skills[i] == id
  }

  /** Each source skill is named at exactly one place, and nothing else is named; every naming is sound. */
  ghost predicate NamesEachSkillOnce(inventory: Inventory, groups: seq<SkillGroup>) {
    && (forall source :: source in inventory.skills ==> exists g, i :: Named(groups, g, i, source.id))
    && (forall g, i, h, j, id :: Named(groups, g, i, id) && Named(groups, h, j, id) ==> g == h && i == j)
    && (forall g, i, id :: Named(groups, g, i, id) ==>
          && SafeIdentifier(id) && id in SkillIds(inventory)
          && DecisionSound(LastSource(inventory.skills, id), groups[g].decision))
  }

  lemma NamedIsValid(inventory: Inventory, groups: seq<SkillGroup>, g: int, i: int, id: string)
    requires Covers(SkillIds(inventory), SkillValid(inventory), SkillEntries(groups)) && Named(groups, g, i, id)
    ensures SafeIdentifier(id) && id in SkillIds(inventory)
    ensures DecisionSound(LastSource(inventory.skills, id), groups[g].decision)
  {
    hide SkillEntries, SafeIdentifier, DecisionSound, Before;
    EntryAt(groups, g, i);
    assert SkillEntries(groups)[Before(groups, g) + i] in SkillEntries(groups);
  }

  lemma CoverNames(inventory: Inventory, groups: seq<SkillGroup>)
    requires Covers(SkillIds(inventory), SkillValid(inventory), SkillEntries(groups))
    ensures NamesEachSkillOnce(inventory, groups)
  {
    hide SkillEntries, SkillValid, SafeIdentifier, DecisionSound, Before;
    var entries := SkillEntries(groups);
    forall g, i, id | Named(groups, g, i, id)
      ensures SafeIdentifier(id) && id in SkillIds(inventory)
      ensures DecisionSound(LastSource(inventory.skills, id), groups[g].decision)
    {
      NamedIsValid(inventory, groups, g, i, id);
    }
    forall g, i, h, j, id | Named(groups, g, i, id) && Named(groups, h, j, id)
      ensures g == h && i == j
    {
      SamePlace(groups, g, i, h, j);
    }
    forall source | source in inventory.skills
      ensures exists g, i :: Named(groups, g, i, source.id)
    {
      assert source.id in SkillIds(inventory) && HasKey(entries, source.id);
      var k :| 0 <= k < |entries| && entries[k].key == source.id;
      var g, i := NamedAt(groups, k);
    }
  }

  lemma SamePlace(groups: seq<SkillGroup>, g: nat, i: nat, h: nat, j: nat)
    requires KeysDistinct(SkillEntries(groups))
    requires g < |groups| && i < |groups[g].skills| && h < |groups| && j < |groups[h].skills|
    requires groups[g].skills[i] == groups[h].skills[j]
    ensures g == h && i == j
  {
    EntryAt(groups, g, i);
    EntryAt(groups, h, j);
    if g < h {
      BeforeGrows(groups, g, h);
    } else if h < g {
      BeforeGrows(groups, h, g);
    }
  }

  /** The place at which an entry is named. */
  lemma NamedAt(groups: seq<SkillGroup>, k: nat) returns (g: nat, i: nat)
    requires k < |SkillEntries(groups)|
    ensures Named(groups, g, i, SkillEntries(groups)[k].key) && k == Before(groups, g) + i
    ensures SkillEntries(groups)[k].value == groups[g].decision
  {
    hide SkillEntries;
    BeforeIsPrefix(groups, |groups|);
    assert groups[..|groups|] == groups;
    g, i := PlaceOf(groups, k, |groups|);
    EntryAt(groups, g, i);
  }

  lemma NamesCover(inventory: Inventory, groups: seq<SkillGroup>)
    requires NamesEachSkillOnce(inventory, groups)
    ensures Covers(SkillIds(inventory), SkillValid(inventory), SkillEntries(groups))
  {
    hide SkillEntries, SafeIdentifier, DecisionSound, Named, Before;
    var entries := SkillEntries(groups);
    forall k | 0 <= k < |entries|
      ensures entries[k].key in SkillIds(inventory) && SkillValid(inventory)(entries[k])
    {
      var g, i := NamedAt(groups, k);
    }
    forall a, b | 0 <= a < b < |entries|
      ensures entries[a].key != entries[b].key
    {
      var g, i := NamedAt(groups, a);
      var h, j := NamedAt(groups, b);
    }
    forall id | id in SkillIds(inventory)
      ensures HasKey(entries, id)
    {
      var g, i :| Named(groups, g, i, id);
      NamedHasKey(groups, g, i, id);
    }
  }

  lemma NamedHasKey(groups: seq<SkillGroup>, g: int, i: int, id: string)
    requires Named(groups, g, i, id)
    ensures HasKey(SkillEntries(groups), id)
  {
    hide SkillEntries;
    EntryAt(groups, g, i);
    assert SkillEntries(groups)[Before(groups, g) + i] in SkillEntries(groups);
  }

  // ----- Adapter files

  function BeforeFiles(groups: seq<AdapterGroup>, g: nat): nat
    requires g <= |groups|
  {
    if g == 0 then 0 else BeforeFiles(groups, g - 1) + |groups[g - 1].files|
  }

  lemma {:induction false} BeforeFilesIsPrefix(groups: seq<AdapterGroup>, g: nat)
    requires g <= |groups|
    ensures BeforeFiles(groups, g) == |AdapterEntries(groups[..g])|
  {
    if g > 0 {
      BeforeFilesIsPrefix(groups, g - 1);
      assert groups[..g] == groups[..g - 1] + [groups[g - 1]];
      AdapterEntriesAppend(groups[..g - 1], [groups[g - 1]]);
      assert AdapterEntries([groups[g - 1]]) == FileEntries(groups[g - 1]) + AdapterEntries([]);
    }
  }

  lemma {:induction false} FileEntryAt(groups: seq<AdapterGroup>, g: nat, i: nat)
    requires g < |groups| && i < |groups[g].files|
    ensures BeforeFiles(groups, g) + i < |AdapterEntries(groups)|
    ensures AdapterEntries(groups)[BeforeFiles(groups, g) + i]
         == Entry(groups[g].files[i], AdapterDecision(groups[g].role, groups[g].ownership))
  {
    BeforeFilesIsPrefix(groups, g);
    assert groups == groups[..g] + [groups[g]] + groups[g + 1..];
    AdapterEntriesAppend(groups[..g] + [groups[g]], groups[g + 1..]);
    AdapterEntriesAppend(groups[..g], [groups[g]]);
    assert AdapterEntries([groups[g]]) == FileEntries(groups[g]) + AdapterEntries([]);
  }

  lemma {:induction false} FilePlaceOf(groups: seq<AdapterGroup>, k: nat, n: nat) returns (g: nat, i: nat)
    requires n <= |groups| && k < BeforeFiles(groups, n)
    ensures g < n && i < |groups[g].files| && k == BeforeFiles(groups, g) + i
  {
    if k >= BeforeFiles(groups, n - 1) {
      g, i := n - 1, k - BeforeFiles(groups, n - 1);
    } else {
      g, i := FilePlaceOf(groups, k, n - 1);
    }
  }

  lemma {:induction false} BeforeFilesGrows(groups: seq<AdapterGroup>, g: nat, h: nat)
    requires g < h <= |groups|
    ensures BeforeFiles(groups, g) + |groups[g].files| <= BeforeFiles(groups, h)
  {
    if g + 1 < h {
      BeforeFilesGrows(groups, g, h - 1);
    }
  }

  predicate Listed(groups: seq<AdapterGroup>, g: int, i: int, file: AdapterFile) {
    0 <= g < |groups| && 0 <= i < |groups[g].files| && groups[g].files[i] == file
  }

  /** Each inventoried adapter file is listed at exactly one place, and nothing else is listed. */
  ghost predicate ListsEachFileOnce(inventory: Inventory, groups: seq<AdapterGroup>) {
    && (forall source, path :: source in inventory.skills && path in source.adapterFiles ==>
          exists g, i :: Listed(groups, g, i, AdapterFile(source.id, path)))
    && (forall g, i, h, j, file :: Listed(groups, g, i, file) && Listed(groups, h, j, file) ==> g == h && i == j)
    && (forall g, i, file :: Listed(groups, g, i, file) ==>
          exists source :: source in inventory.skills && source.id == file.skill && file.path in source.adapterFiles)
  }

  lemma CoverLists(inventory: Inventory, groups: seq<AdapterGroup>)
    requires Covers(AdapterFiles(inventory), AdapterValid(), AdapterEntries(groups))
    ensures ListsEachFileOnce(inventory, groups)
  {
    hide AdapterEntries;
    var entries := AdapterEntries(groups);
    forall g, i, file | Listed(groups, g, i, file)
      ensures exists source :: source in inventory.skills && source.id == file.skill && file.path in source.adapterFiles
    {
      FileEntryAt(groups, g, i);
      assert entries[BeforeFiles(groups, g) + i] in entries;
      assert file in AdapterFiles(inventory);
    }
    forall g, i, h, j, file | Listed(groups, g, i, file) && Listed(groups, h, j, file)
      ensures g == h && i == j
    {
      FileEntryAt(groups, g, i);
      FileEntryAt(groups, h, j);
      if g < h {
        BeforeFilesGrows(groups, g, h);
      } else if h < g {
        BeforeFilesGrows(groups, h, g);
      }
    }
    forall source, path | source in inventory.skills && path in source.adapterFiles
      ensures exists g, i :: Listed(groups, g, i, AdapterFile(source.id, path))
    {
      assert AdapterFile(source.id, path) in AdapterFiles(inventory);
      assert HasKey(entries, AdapterFile(source.id, path));
      var k :| 0 <= k < |entries| && entries[k].key == AdapterFile(source.id, path);
      BeforeFilesIsPrefix(groups, |groups|);
      assert groups[..|groups|] == groups;
      var g, i := FilePlaceOf(groups, k, |groups|);
      FileEntryAt(groups, g, i);
      assert Listed(groups, g, i, AdapterFile(source.id, path));
    }
  }

  lemma ListsCover(inventory: Inventory, groups: seq<AdapterGroup>)
    requires ListsEachFileOnce(inventory, groups)
    ensures Covers(AdapterFiles(inventory), AdapterValid(), AdapterEntries(groups))
  {
    hide AdapterEntries;
    var entries := AdapterEntries(groups);
    BeforeFilesIsPrefix(groups, |groups|);
    assert groups[..|groups|] == groups;
    forall k | 0 <= k < |entries|
      ensures entries[k].key in AdapterFiles(inventory)
    {
      var g, i := FilePlaceOf(groups, k, |groups|);
      FileEntryAt(groups, g, i);
      assert Listed(groups, g, i, entries[k].key);
      var source :| source in inventory.skills && source.id == entries[k].key.skill && entries[k].key.path in source.adapterFiles;
      assert AdapterFile(source.id, entries[k].key.path) == entries[k].key;
    }
    forall a, b | 0 <= a < b < |entries|
      ensures entries[a].key != entries[b].key
    {
      var g, i := FilePlaceOf(groups, a, |groups|);
      var h, j := FilePlaceOf(groups, b, |groups|);
      FileEntryAt(groups, g, i);
      FileEntryAt(groups, h, j);
      assert Listed(groups, g, i, entries[a].key) && Listed(groups, h, j, entries[b].key);
    }
    forall file | file in AdapterFiles(inventory)
      ensures HasKey(entries, file)
    {
      var g, i :| Listed(groups, g, i, file);
      FileEntryAt(groups, g, i);
      assert entries[BeforeFiles(groups, g) + i] in entries;
    }
  }

  // ----- Findings, owners and notes

  /** A disposition for a finding that it may have: an error is not accepted as it is. */
  predicate Disposes(dispositions: seq<Entry<FindingKey, Disposition>>, k: int, f: Finding) {
    && 0 <= k < |dispositions| && dispositions[k].key == KeyOf(f)
    && (f.isError ==> dispositions[k].value != AcceptBaseline)
  }

  ghost predicate IsFound(inventory: Inventory, key: FindingKey) {
    exists f :: f in inventory.findings && KeyOf(f) == key
  }

  /** Each finding has exactly one disposition, and it may have it; there are no others. */
  ghost predicate DisposesOfEachFindingOnce(inventory: Inventory, dispositions: seq<Entry<FindingKey, Disposition>>) {
    && (forall f :: f in inventory.findings ==> exists k :: Disposes(dispositions, k, f))
    && (forall j, k :: 0 <= j < k < |dispositions| ==> dispositions[j].key != dispositions[k].key)
    && (forall k :: 0 <= k < |dispositions| ==> IsFound(inventory, dispositions[k].key))
  }

  lemma DisposedOf(inventory: Inventory, dispositions: seq<Entry<FindingKey, Disposition>>, f: Finding) returns (k: nat)
    requires Covers(FindingKeys(inventory), DispositionValid(inventory), dispositions) && f in inventory.findings
    ensures Disposes(dispositions, k, f)
  {
    assert KeyOf(f) in FindingKeys(inventory) && HasKey(dispositions, KeyOf(f));
    var e :| e in dispositions && e.key == KeyOf(f);
    k :| 0 <= k < |dispositions| && dispositions[k] == e;
    assert DispositionValid(inventory)(e);
  }

  lemma CoverDisposes(inventory: Inventory, dispositions: seq<Entry<FindingKey, Disposition>>)
    requires Covers(FindingKeys(inventory), DispositionValid(inventory), dispositions)
    ensures DisposesOfEachFindingOnce(inventory, dispositions)
  {
    hide Disposes, DispositionValid, HasKey;
    forall f | f in inventory.findings
      ensures exists k :: Disposes(dispositions, k, f)
    {
      var k := DisposedOf(inventory, dispositions, f);
    }
    forall k | 0 <= k < |dispositions|
      ensures IsFound(inventory, dispositions[k].key)
    {
      assert dispositions[k] in dispositions;
      assert dispositions[k].key in FindingKeys(inventory);
    }
    forall j, k | 0 <= j < k < |dispositions|
      ensures dispositions[j].key != dispositions[k].key
    {
    }
  }

  lemma DisposedIsValid(inventory: Inventory, dispositions: seq<Entry<FindingKey, Disposition>>, j: nat)
    requires DisposesOfEachFindingOnce(inventory, dispositions) && j < |dispositions|
    ensures dispositions[j].key in FindingKeys(inventory) && DispositionValid(inventory)(dispositions[j])
  {
    var e := dispositions[j];
    assert IsFound(inventory, e.key);
    forall f | f in inventory.findings && KeyOf(f) == e.key && f.isError
      ensures !e.value.AcceptBaseline?
    {
      var k :| Disposes(dispositions, k, f);
      assert k == j;
    }
  }

  lemma DisposesCover(inventory: Inventory, dispositions: seq<Entry<FindingKey, Disposition>>)
    requires DisposesOfEachFindingOnce(inventory, dispositions)
    ensures Covers(FindingKeys(inventory), DispositionValid(inventory), dispositions)
  {
    hide DispositionValid;
    forall e | e in dispositions
      ensures e.key in FindingKeys(inventory) && DispositionValid(inventory)(e)
    {
      var j :| 0 <= j < |dispositions| && dispositions[j] == e;
      DisposedIsValid(inventory, dispositions, j);
    }
    forall key | key in FindingKeys(inventory)
      ensures HasKey(dispositions, key)
    {
      var f :| f in inventory.findings && KeyOf(f) == key;
      var k :| Disposes(dispositions, k, f);
      assert dispositions[k] in dispositions;
    }
    assert KeysDistinct(dispositions);
  }

  /** Which source a runtime owner fits, owner by owner. */
  lemma OwnerFitsExactlyWhen(source: SkillSource, owner: RuntimeOwner)
    ensures var official := source.kind == Some("mcp") && source.program == Some("official_mcp_sdk");
      OwnerAgrees(source, owner) <==>
        match owner
        case SkillAdapter => !official && |source.adapterFiles| > 0
        case LegacyMcpWrapper => !official && |source.adapterFiles| > 0
        case OfficialMcpSdk => official && |source.adapterFiles| == 0
        case _ => !official
  {
  }

  ghost predicate IsSource(inventory: Inventory, id: string) {
    exists s :: s in inventory.skills && s.id == id
  }

  /** A note has a safe identifier and names at least one skill, only known ones, and each once. */
  ghost predicate NoteSound(inventory: Inventory, note: Note) {
    && SafeIdentifier(note.id) && |note.skills| > 0
    && (forall j :: 0 <= j < |note.skills| ==> IsSource(inventory, note.skills[j]))
    && (forall j, k :: 0 <= j < k < |note.skills| ==> note.skills[j] != note.skills[k])
  }

  lemma NoteOkIsSound(inventory: Inventory, note: Note)
    requires NoteOk(inventory, note)
    ensures NoteSound(inventory, note)
  {
    hide SafeIdentifier;
    forall j | 0 <= j < |note.skills|
      ensures IsSource(inventory, note.skills[j])
    {
      assert note.skills[j] in note.skills;
      assert note.skills[j] in SkillIds(inventory);
    }
    assert |note.skills| > 0;
  }

  lemma SoundNoteIsOk(inventory: Inventory, note: Note)
    requires NoteSound(inventory, note)
    ensures NoteOk(inventory, note)
  {
    hide SafeIdentifier;
    forall skill | skill in note.skills
      ensures skill in SkillIds(inventory)
    {
      var j :| 0 <= j < |note.skills| && note.skills[j] == skill;
      assert IsSource(inventory, note.skills[j]);
    }
    assert note.skills != [];
  }

  /** Notes are sound together if each is and no two share an identifier, exceptions and unknowns alike. */
  lemma NotesOkExactlyWhen(inventory: Inventory, notes: seq<Note>)
    ensures NotesOk(inventory, notes) <==>
      && (forall i, j :: 0 <= i < j < |notes| ==> notes[i].id != notes[j].id)
      && (forall i :: 0 <= i < |notes| ==> NoteSound(inventory, notes[i]))
  {
    hide NoteOk, NoteSound;
    forall i | 0 <= i < |notes|
      ensures NoteOk(inventory, notes[i]) <==> NoteSound(inventory, notes[i])
      ensures notes[i] in notes
    {
      if NoteSound(inventory, notes[i]) {
        SoundNoteIsOk(inventory, notes[i]);
      } else if NoteOk(inventory, notes[i]) {
        NoteOkIsSound(inventory, notes[i]);
      }
    }
    assert forall note :: note in notes ==> exists i :: 0 <= i < |notes| && notes[i] == note;
  }

  // ----- The manifest as a whole

  /** Acceptance, read off the manifest: every skill, file and finding is decided at exactly one place. */
  lemma AcceptedExactlyWhen(inventory: Inventory, m: Manifest)
    ensures Accepted(inventory, m) <==>
      && m.schemaVersion == CLASSIFICATION_MANIFEST_SCHEMA_VERSION && m.inventorySchemaVersion == inventory.schemaVersion
      && (forall g :: 0 <= g < |m.skillGroups| ==> |m.skillGroups[g].skills| > 0)
      && NamesEachSkillOnce(inventory, m.skillGroups)
      && (forall g, i, id :: Named(m.skillGroups, g, i, id) ==>
            id in SkillIds(inventory) && OwnerAgrees(FirstSource(inventory.skills, id), m.skillGroups[g].decision.owner))
      && (forall g :: 0 <= g < |m.adapterGroups| ==> AdapterGroupSound(m.adapterGroups[g]))
      && ListsEachFileOnce(inventory, m.adapterGroups)
      && DisposesOfEachFindingOnce(inventory, m.dispositions)
      && NotesOk(inventory, m.exceptions + m.unknowns)
  {
    hide SkillEntries, AdapterEntries, NotesOk, AdapterGroupSound, DisposesOfEachFindingOnce, ListsEachFileOnce, NamesEachSkillOnce;
    assert Covers(FindingKeys(inventory), DispositionValid(inventory), m.dispositions)
      <==> DisposesOfEachFindingOnce(inventory, m.dispositions) by {
      if DisposesOfEachFindingOnce(inventory, m.dispositions) {
        DisposesCover(inventory, m.dispositions);
      } else if Covers(FindingKeys(inventory), DispositionValid(inventory), m.dispositions) {
        CoverDisposes(inventory, m.dispositions);
      }
    }
    assert Covers(SkillIds(inventory), SkillValid(inventory), SkillEntries(m.skillGroups)) <==> NamesEachSkillOnce(inventory, m.skillGroups) by {
      if NamesEachSkillOnce(inventory, m.skillGroups) {
        NamesCover(inventory, m.skillGroups);
      } else if Covers(SkillIds(inventory), SkillValid(inventory), SkillEntries(m.skillGroups)) {
        CoverNames(inventory, m.skillGroups);
      }
    }
    assert Covers(AdapterFiles(inventory), AdapterValid(), AdapterEntries(m.adapterGroups)) <==> ListsEachFileOnce(inventory, m.adapterGroups) by {
      if ListsEachFileOnce(inventory, m.adapterGroups) {
        ListsCover(inventory, m.adapterGroups);
      } else if Covers(AdapterFiles(inventory), AdapterValid(), AdapterEntries(m.adapterGroups)) {
        CoverLists(inventory, m.adapterGroups);
      }
    }
    if NamesEachSkillOnce(inventory, m.skillGroups) {
      OwnersRead(inventory, m.skillGroups);
    }
    hide Covers, OwnersAgree, Collected, OwnerAgrees;
  }

  lemma OwnersRead(inventory: Inventory, groups: seq<SkillGroup>)
    requires NamesEachSkillOnce(inventory, groups)
    ensures OwnersAgree(inventory, Collected(SkillIds(inventory), SkillValid(inventory), SkillEntries(groups))) <==>
      forall g, i, id :: Named(groups, g, i, id) ==>
        id in SkillIds(inventory) && OwnerAgrees(FirstSource(inventory.skills, id), groups[g].decision.owner)
  {
    hide SkillEntries, SafeIdentifier, DecisionSound, OwnerAgrees;
    NamesCover(inventory, groups);
    var found := Collected(SkillIds(inventory), SkillValid(inventory), SkillEntries(groups));
    CleanJoinIsCover(SkillIds(inventory), SkillValid(inventory), SkillEntries(groups));
    forall g, i, id | Named(groups, g, i, id)
      ensures id in found && found[id] == groups[g].decision
    {
      CollectedAt(inventory, groups, g, i);
    }
    forall id | id in found
      ensures exists g, i :: Named(groups, g, i, id)
    {
      assert id in SkillIds(inventory);
    }
  }

  lemma CollectedAt(inventory: Inventory, groups: seq<SkillGroup>, g: nat, i: nat)
    requires Covers(SkillIds(inventory), SkillValid(inventory), SkillEntries(groups))
    requires g < |groups| && i < |groups[g].skills|
    ensures var found := Collected(SkillIds(inventory), SkillValid(inventory), SkillEntries(groups));
      groups[g].skills[i] in found && found[groups[g].skills[i]] == groups[g].decision
  {
    hide SkillValid;
    EntryAt(groups, g, i);
    var entries := SkillEntries(groups);
    assert entries[Before(groups, g) + i] in entries;
    CleanJoin(SkillIds(inventory), SkillValid(inventory), map[], entries);
    CleanJoinIsCover(SkillIds(inventory), SkillValid(inventory), entries);
  }

  /** `a` is a prefix of `b`, or smaller in the first character in which they differ. */
  ghost predicate Ascending(a: string, b: string) {
    exists k :: 0 <= k <= |a| && k <= |b| && a[..k] == b[..k] && (k == |a| || (k < |b| && a[k] < b[k]))
  }

  lemma {:induction false} LeAscends(a: string, b: string)
    requires StringLe(a, b)
    ensures Ascending(a, b)
    decreases |a|
  {
    if a == "" {
      assert a[..0] == b[..0];
    } else if a[0] < b[0] {
      assert a[..0] == b[..0];
    } else {
      LeAscends(a[1..], b[1..]);
      var k :| 0 <= k <= |a[1..]| && k <= |b[1..]| && a[1..][..k] == b[1..][..k] && (k == |a[1..]| || (k < |b[1..]| && a[1..][k] < b[1..][k]));
      assert a[..k + 1] == [a[0]] + a[1..][..k] && b[..k + 1] == [b[0]] + b[1..][..k];
    }
  }

  lemma SortedAscends(notes: seq<Note>)
    ensures forall i, j :: 0 <= i < j < |SortedNotes(notes)| ==> Ascending(SortedNotes(notes)[i].id, SortedNotes(notes)[j].id)
  {
    var sorted := SortedNotes(notes);
    forall i, j | 0 <= i < j < |sorted|
      ensures Ascending(sorted[i].id, sorted[j].id)
    {
      assert NoteLe(sorted[i], sorted[j]);
      LeAscends(sorted[i].id, sorted[j].id);
    }
  }

  /** The artifact takes every decision from the one place that names its skill, file or finding. */
  lemma ArtifactReadsManifest(inventory: Inventory, m: Manifest)
    requires Accepted(inventory, m)
    ensures var artifact := Compiled(inventory, m);
      && (forall g, i :: 0 <= g < |m.skillGroups| && 0 <= i < |m.skillGroups[g].skills| ==>
            m.skillGroups[g].skills[i] in artifact.skills
            && artifact.skills[m.skillGroups[g].skills[i]] == m.skillGroups[g].decision)
      && (forall g, i :: 0 <= g < |m.adapterGroups| && 0 <= i < |m.adapterGroups[g].files| ==>
            m.adapterGroups[g].files[i] in artifact.adapters
            && artifact.adapters[m.adapterGroups[g].files[i]] == AdapterDecision(m.adapterGroups[g].role, m.adapterGroups[g].ownership))
      && (forall k :: 0 <= k < |m.dispositions| ==>
            m.dispositions[k].key in artifact.dispositions && artifact.dispositions[m.dispositions[k].key] == m.dispositions[k].value)
      && multiset(artifact.exceptions) == multiset(m.exceptions) && multiset(artifact.unknowns) == multiset(m.unknowns)
      && (forall i, j :: 0 <= i < j < |artifact.exceptions| ==> Ascending(artifact.exceptions[i].id, artifact.exceptions[j].id))
      && (forall i, j :: 0 <= i < j < |artifact.unknowns| ==> Ascending(artifact.unknowns[i].id, artifact.unknowns[j].id))
  {
    SortedAscends(m.exceptions);
    SortedAscends(m.unknowns);
    var artifact := Compiled(inventory, m);
    forall g, i | 0 <= g < |m.skillGroups| && 0 <= i < |m.skillGroups[g].skills|
      ensures m.skillGroups[g].skills[i] in artifact.skills
        && artifact.skills[m.skillGroups[g].skills[i]] == m.skillGroups[g].decision
    {
      CollectedAt(inventory, m.skillGroups, g, i);
    }
    var entries := AdapterEntries(m.adapterGroups);
    CleanJoin(AdapterFiles(inventory), AdapterValid(), map[], entries);
    CleanJoinIsCover(AdapterFiles(inventory), AdapterValid(), entries);
    forall g, i | 0 <= g < |m.adapterGroups| && 0 <= i < |m.adapterGroups[g].files|
      ensures m.adapterGroups[g].files[i] in artifact.adapters
        && artifact.adapters[m.adapterGroups[g].files[i]] == AdapterDecision(m.adapterGroups[g].role, m.adapterGroups[g].ownership)
    {
      FileEntryAt(m.adapterGroups, g, i);
      assert entries[BeforeFiles(m.adapterGroups, g) + i] in entries;
    }
    CleanJoin(FindingKeys(inventory), DispositionValid(inventory), map[], m.dispositions);
    CleanJoinIsCover(FindingKeys(inventory), DispositionValid(inventory), m.dispositions);
    forall k | 0 <= k < |m.dispositions|
      ensures m.dispositions[k] in m.dispositions
    {
    }
  }
}

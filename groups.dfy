/** The two group files: grupos_check.txt, the recipients chosen on the page
    (`POST /grupos` writes it, `lerGruposDestinatarios` and
    `GET /gruposcheck` read it), and grupos_scan.txt, the groups seen in
    passing traffic (`processarGrupo` appends to it, `GET /grupos` reads
    it). */
module Groups {
  import opened Wrappers
  import opened Text

  /** The suffix of a WhatsApp group id. */
  const GroupSuffix: string := "@g.us"

  // ---------------------------------------------------------------------
  // The recipients read by the broadcast: `lerGruposDestinatarios`

  /** The id part of a line: the text before the first `|`, trimmed. */
  function LineId(line: string): string {
    Trim(Split(line, '|')[0])
  }

  function RecipientIds(lines: seq<string>): (ids: seq<string>)
    ensures |ids| <= |lines|
    ensures forall id :: id in ids ==> EndsWith(id, GroupSuffix) && IsTrimmed(id)
  {
    if lines == [] then []
    else
      var id := LineId(lines[0]);
      (if EndsWith(id, GroupSuffix) then [id] else []) + RecipientIds(lines[1..])
  }

  /** `lerGruposDestinatarios`: the ids of grupos_check.txt, one per line,
      that end in `@g.us`; a missing file has none. */
  function Recipients(file: Option<string>): (ids: seq<string>)
    ensures file.None? ==> ids == []
    ensures forall id :: id in ids ==> EndsWith(id, GroupSuffix) && IsTrimmed(id)
  {
    match file
    case None => []
    case Some(text) => RecipientIds(Split(text, '\n'))
  }

  // ---------------------------------------------------------------------
  // Writing and listing grupos_check.txt: `POST /grupos`, `GET /gruposcheck`

  /** A group as the page posts it. */
  datatype Group = Group(id: string, name: string)

  function GroupLine(g: Group): string {
    g.id + " | " + g.name
  }

  function GroupLines(gs: seq<Group>): (lines: seq<string>)
    ensures |lines| == |gs|
    ensures forall i :: 0 <= i < |gs| ==> lines[i] == GroupLine(gs[i])
  {
    if gs == [] then [] else [GroupLine(gs[0])] + GroupLines(gs[1..])
  }

  /** `POST /grupos`: one `id | name` line per group, joined by line breaks
      and without a final one. */
  function SaveGroups(gs: seq<Group>): string {
    Join(GroupLines(gs), '\n')
  }

  /** A group as the listing routes return it: `nome` is undefined when the
      line has no `|`. */
  datatype Entry = Entry(id: string, name: Option<string>)

  /** A non-empty line split at every `|`, the pieces trimmed; the first two
      pieces are the id and the name. */
  function ParseEntry(line: string): Entry {
    var parts := Split(line, '|');
    Entry(Trim(parts[0]), if |parts| > 1 then Some(Trim(parts[1])) else None)
  }

  function ParseEntries(lines: seq<string>): seq<Entry> {
    if lines == [] then []
    else (if lines[0] == "" then [] else [ParseEntry(lines[0])]) + ParseEntries(lines[1..])
  }

  /** `GET /grupos` and `GET /gruposcheck`: the non-empty lines of the file,
      each parsed; a missing file lists nothing. */
  function ListGroups(file: Option<string>): (entries: seq<Entry>)
    ensures file.None? ==> entries == []
  {
    match file
    case None => []
    case Some(text) => ParseEntries(Split(text, '\n'))
  }

  /** A field that survives the `id | name` format: trimmed, and without `|`
      or a line break. */
  ghost predicate PlainField(s: string) {
    IsTrimmed(s) && '|' !in s && '\n' !in s
  }

  ghost predicate PlainGroups(gs: seq<Group>) {
    forall i :: 0 <= i < |gs| ==> PlainField(gs[i].id) && PlainField(gs[i].name)
  }

  /** The ids among `gs` that end in `@g.us`, in order. */
  function GroupIds(gs: seq<Group>): seq<string> {
    if gs == [] then []
    else (if EndsWith(gs[0].id, GroupSuffix) then [gs[0].id] else []) + GroupIds(gs[1..])
  }

  /** A written line splits at `|` into the padded id and the padded name. */
  lemma {:induction false} GroupLineSplit(g: Group)
    requires PlainField(g.id) && PlainField(g.name)
    ensures Split(GroupLine(g), '|') == [g.id + " ", " " + g.name]
    ensures LineId(GroupLine(g)) == g.id
    ensures ParseEntry(GroupLine(g)) == Entry(g.id, Some(g.name))
  {
    var parts := [g.id + " ", " " + g.name];
    assert Split(GroupLine(g), '|') == parts by {
      assert Join(parts, '|') == GroupLine(g);
      assert '|' !in " ";
      assert forall p :: p in parts ==> '|' !in p;
      SplitJoin(parts, '|');
    }
    assert Trim(parts[0]) == g.id by {
      TrimSpaceAfter(g.id, ' ');
      TrimOfTrimmed(g.id);
    }
    assert Trim(parts[1]) == g.name by {
      assert " " + g.name == [' '] + g.name;
      TrimSpaceBefore(' ', g.name);
      TrimOfTrimmed(g.name);
    }
  }

  /** Saving a list of groups and splitting the file into lines gives one
      line per group back. */
  lemma {:induction false} SavedLines(gs: seq<Group>)
    requires PlainGroups(gs)
    ensures Split(SaveGroups(gs), '\n') == if gs == [] then [""] else GroupLines(gs)
  {
    var lines := GroupLines(gs);
    if gs == [] {
      assert SaveGroups(gs) == "";
      assert Find("", '\n') == -1;
    } else {
      forall l | l in lines
        ensures '\n' !in l
      {
        var i :| 0 <= i < |lines| && lines[i] == l;
        assert '\n' !in " | ";
      }
      SplitJoin(lines, '\n');
    }
  }

  /** Each group as the listing routes return it after a save. */
  function SavedEntries(gs: seq<Group>): (entries: seq<Entry>)
    ensures |entries| == |gs|
    ensures forall i :: 0 <= i < |gs| ==> entries[i] == Entry(gs[i].id, Some(gs[i].name))
  {
    if gs == [] then [] else [Entry(gs[0].id, Some(gs[0].name))] + SavedEntries(gs[1..])
  }

  lemma {:induction false} ParseGroupLines(gs: seq<Group>)
    requires PlainGroups(gs)
    ensures ParseEntries(GroupLines(gs)) == SavedEntries(gs)
  {
    if gs != [] {
      var lines := GroupLines(gs);
      GroupLineSplit(gs[0]);
      assert lines[0] != "" by {
        assert |lines[0]| >= 3;
      }
      assert lines[1..] == GroupLines(gs[1..]);
      assert PlainGroups(gs[1..]);
      ParseGroupLines(gs[1..]);
    }
  }

  lemma {:induction false} RecipientLines(gs: seq<Group>)
    requires PlainGroups(gs)
    ensures RecipientIds(GroupLines(gs)) == GroupIds(gs)
  {
    if gs != [] {
      GroupLineSplit(gs[0]);
      assert GroupLines(gs)[1..] == GroupLines(gs[1..]);
      assert PlainGroups(gs[1..]);
      RecipientLines(gs[1..]);
    }
  }

  lemma EmptyLineIsNoRecipient()
    ensures RecipientIds([""]) == []
  {
    assert Split("", '|') == [""];
    assert Trim("") == "";
    assert !EndsWith("", GroupSuffix);
  }

  /** `GET /gruposcheck` lists the groups `POST /grupos` saved, each with
      its name. */
  lemma {:induction false} SavedGroupsListed(gs: seq<Group>)
    requires PlainGroups(gs)
    ensures ListGroups(Some(SaveGroups(gs))) == SavedEntries(gs)
  {
    SavedLines(gs);
    if gs != [] {
      ParseGroupLines(gs);
    }
  }

  /** The broadcast sends to exactly the saved groups whose id ends in
      `@g.us`, in the order they were saved. */
  lemma {:induction false} SavedRecipients(gs: seq<Group>)
    requires PlainGroups(gs)
    ensures Recipients(Some(SaveGroups(gs))) == GroupIds(gs)
  {
    SavedLines(gs);
    if gs == [] {
      EmptyLineIsNoRecipient();
    } else {
      RecipientLines(gs);
    }
  }

  // ---------------------------------------------------------------------
  // Recording the groups seen in traffic: `processarGrupo`

  /** The line `processarGrupo` appends for a group. */
  function Registration(groupId: string, name: string): string {
    groupId + " - " + name
  }

  /** The group a message concerns: the sender when it is a group,
      otherwise the recipient when that is a group. */
  function MessageGroup(from: string, to: Option<string>): (g: Option<string>)
    ensures g.Some? ==> EndsWith(g.value, GroupSuffix)
    ensures g.None? <==> !EndsWith(from, GroupSuffix) && (to.None? || !EndsWith(to.value, GroupSuffix))
  {
    if EndsWith(from, GroupSuffix) then Some(from)
    else if to.Some? && EndsWith(to.value, GroupSuffix) then Some(to.value)
    else None
  }

  /** grupos_scan.txt after `processarGrupo` handled a message (a missing
      file reads as empty). `chatName` is the name `getChat` returned, or
      `None` when it failed, in which case the error is swallowed. A group
      whose id already occurs anywhere in the file is not added again. */
  function ScanResult(file: string, from: string, to: Option<string>, chatName: Option<string>): string {
    match MessageGroup(from, to)
    case None => file
    case Some(groupId) =>
      if chatName.None? || Contains(file, groupId) then file
      else file + Registration(groupId, chatName.value) + "\n"
  }

  /** The scan only ever appends: the earlier contents stay as a prefix. */
  lemma ScanAppends(file: string, from: string, to: Option<string>, chatName: Option<string>)
    ensures StartsWith(ScanResult(file, from, to, chatName), file)
  {
    var r := ScanResult(file, from, to, chatName);
    assert r[..|file|] == file;
  }

  /** After a group's message has been handled with its chat found, the
      group's id is in the file. */
  lemma ScanRegisters(file: string, from: string, to: Option<string>, name: string)
    requires MessageGroup(from, to).Some?
    ensures Contains(ScanResult(file, from, to, Some(name)), MessageGroup(from, to).value)
  {
    var g := MessageGroup(from, to).value;
    if !Contains(file, g) {
      ContainsInfix(file, g, " - " + name + "\n");
      assert file + g + (" - " + name + "\n") == file + Registration(g, name) + "\n";
    }
  }

  /** Handling a message of the same group again changes nothing, whatever
      name the chat reports the second time. */
  lemma ScanIdempotent(file: string, from: string, to: Option<string>, name: string, later: Option<string>)
    ensures var once := ScanResult(file, from, to, Some(name));
      ScanResult(once, from, to, later) == once
  {
    if MessageGroup(from, to).Some? {
      ScanRegisters(file, from, to, name);
    }
  }
}

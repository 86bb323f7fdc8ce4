/** Static command suggestions: merging suggestion files, and looking up candidates by the first typed word.

    Texts are sequences of code points; the order of their bytes, which the program compares, is the same (module
    Utf8). */
module Suggestions {
  import opened Text
  import opened Utf8
  import opened Wrappers

  datatype Example = Example(cmd: string, desc: string)
  datatype Entry = Entry(command: string, hints: seq<Example>)

  /** The length of a text in bytes. */
  function Bytes(s: string): (n: nat)
    ensures n == 0 <==> s == ""
  {
    |Encoded(s)|
  }

  predicate StartsWith(s: string, prefix: string) {
    |prefix| <= |s| && s[..|prefix|] == prefix
  }

  // Merging.  The database maps a command to its examples, and those to their descriptions.

  type Slot = map<string, string>
  type Db = map<string, Slot>

  function Replaced(existing: string, desc: string): string {
    if existing == "" && desc != "" then desc
    else if Bytes(desc) > Bytes(existing) && desc != "" then desc
    else existing
  }

  predicate Accepted(key: string, hint: Example) {
    Trim(hint.cmd) != "" && StartsWith(Trim(hint.cmd), key)
  }

  function AddHint(slot: Slot, key: string, hint: Example): Slot {
    if !Accepted(key, hint) then slot
    else
      var cmd, desc := Trim(hint.cmd), Trim(hint.desc);
      slot[cmd := if cmd in slot then Replaced(slot[cmd], desc) else desc]
  }

  function AddHints(slot: Slot, key: string, hints: seq<Example>): Slot {
    if hints == [] then slot
    else AddHint(AddHints(slot, key, hints[..|hints| - 1]), key, hints[|hints| - 1])
  }

  function SlotOf(db: Db, key: string): Slot {
    if key in db then db[key] else map[]
  }

  function MergeEntry(db: Db, entry: Entry): Db {
    var key := Trim(entry.command);
    if key == "" then db else db[key := AddHints(SlotOf(db, key), key, entry.hints)]
  }

  function Merge(db: Db, entries: seq<Entry>): Db {
    if entries == [] then db
    else MergeEntry(Merge(db, entries[..|entries| - 1]), entries[|entries| - 1])
  }

  function Lookup(slot: Slot, cmd: string): Option<string> {
    if cmd in slot then Some(slot[cmd]) else None
  }

  /** The descriptions offered for an example of a command, in the order of the files. */
  function DescsIn(hints: seq<Example>, key: string, cmd: string): seq<string> {
    if hints == [] then []
    else
      var hint := hints[|hints| - 1];
      DescsIn(hints[..|hints| - 1], key, cmd)
      + if Accepted(key, hint) && Trim(hint.cmd) == cmd then [Trim(hint.desc)] else []
  }

  function Descs(entries: seq<Entry>, key: string, cmd: string): seq<string> {
    if entries == [] || key == "" then []
    else
      var entry := entries[|entries| - 1];
      Descs(entries[..|entries| - 1], key, cmd)
      + if Trim(entry.command) == key then DescsIn(entry.hints, key, cmd) else []
  }

  /** The first among the longest of some texts, in bytes. */
  ghost predicate IsFirstLongest(ds: seq<string>, d: string) {
    exists i :: 0 <= i < |ds| && ds[i] == d
      && (forall j :: 0 <= j < |ds| ==> Bytes(ds[j]) <= Bytes(d))
      && (forall j :: 0 <= j < i ==> Bytes(ds[j]) < Bytes(d))
  }

  /** What is kept of the texts `start` (if any) and then `ds`. */
  function Kept(start: Option<string>, ds: seq<string>): Option<string> {
    if ds == [] then start
    else
      var before := Kept(start, ds[..|ds| - 1]);
      Some(if before.Some? then Replaced(before.value, ds[|ds| - 1]) else ds[|ds| - 1])
  }

  lemma {:induction false} KeptIsFirstLongest(ds: seq<string>)
    ensures ds == [] <==> Kept(None, ds).None?
    ensures ds != [] ==> IsFirstLongest(ds, Kept(None, ds).value)
  {
    hide Bytes;
    if ds != [] {
      var init, last := ds[..|ds| - 1], ds[|ds| - 1];
      KeptIsFirstLongest(init);
      if init != [] {
        var d := Kept(None, init).value;
        var i :| 0 <= i < |init| && init[i] == d
          && (forall j :: 0 <= j < |init| ==> Bytes(init[j]) <= Bytes(d))
          && (forall j :: 0 <= j < i ==> Bytes(init[j]) < Bytes(d));
        assert forall j :: 0 <= j < |init| ==> ds[j] == init[j];
        if Bytes(last) > Bytes(d) {
          assert ds[|ds| - 1] == last;
        } else {
          assert ds[i] == d;
        }
      } else {
        assert ds[0] == last;
      }
    }
  }

  lemma {:induction false} KeptInTurn(start: Option<string>, a: seq<string>, b: seq<string>)
    ensures Kept(start, a + b) == Kept(Kept(start, a), b)
  {
    if b == [] {
      assert a + b == a;
    } else {
      KeptInTurn(start, a, b[..|b| - 1]);
      assert (a + b)[..|a + b| - 1] == a + b[..|b| - 1];
    }
  }

  lemma {:induction false} HintsKeep(slot: Slot, key: string, hints: seq<Example>, cmd: string)
    ensures Lookup(AddHints(slot, key, hints), cmd) == Kept(Lookup(slot, cmd), DescsIn(hints, key, cmd))
  {
    hide Accepted, Replaced;
    if hints != [] {
      var init, hint := hints[..|hints| - 1], hints[|hints| - 1];
      HintsKeep(slot, key, init, cmd);
      var offered := if Accepted(key, hint) && Trim(hint.cmd) == cmd then [Trim(hint.desc)] else [];
      KeptInTurn(Lookup(slot, cmd), DescsIn(init, key, cmd), offered);
      OneKept(Lookup(AddHints(slot, key, init), cmd), offered);
    }
  }

  lemma {:induction false} OneKept(start: Option<string>, ds: seq<string>)
    requires |ds| <= 1
    ensures Kept(start, ds) == if ds == [] then start
                               else Some(if start.Some? then Replaced(start.value, ds[0]) else ds[0])
  {
    if ds != [] {
      assert ds[..|ds| - 1] == [];
    }
  }

  /** For every list of files the database keeps, for each example of each command, the first longest of the
      descriptions offered for it; and it holds no other examples. */
  lemma {:induction false} MergeKeepsFirstLongest(entries: seq<Entry>, key: string, cmd: string)
    ensures Lookup(SlotOf(Merge(map[], entries), key), cmd) == Kept(None, Descs(entries, key, cmd))
    ensures var ds := Descs(entries, key, cmd);
            match Lookup(SlotOf(Merge(map[], entries), key), cmd)
            case None => ds == []
            case Some(desc) => IsFirstLongest(ds, desc)
  {
    KeptIsFirstLongest(Descs(entries, key, cmd));
    MergeKeeps(entries, key, cmd);
  }

  lemma {:induction false} MergeKeeps(entries: seq<Entry>, key: string, cmd: string)
    ensures Lookup(SlotOf(Merge(map[], entries), key), cmd) == Kept(None, Descs(entries, key, cmd))
  {
    if entries != [] {
      var init, entry := entries[..|entries| - 1], entries[|entries| - 1];
      MergeKeeps(init, key, cmd);
      if key == "" {
        assert Descs(init, key, cmd) == [];
      } else if Trim(entry.command) == key {
        HintsKeep(SlotOf(Merge(map[], init), key), key, entry.hints, cmd);
        KeptInTurn(None, Descs(init, key, cmd), DescsIn(entry.hints, key, cmd));
      } else {
        assert Descs(entries, key, cmd) == Descs(init, key, cmd);
      }
    }
  }

  /** Every example starts with the command it is filed under. */
  ghost predicate Filed(db: Db) {
    forall key, cmd :: key in db && cmd in db[key] ==> key != "" && StartsWith(cmd, key)
  }

  lemma {:induction false} DescsOnlyIfFiled(hints: seq<Example>, key: string, cmd: string)
    ensures DescsIn(hints, key, cmd) != [] ==> StartsWith(cmd, key)
  {
    if hints != [] {
      DescsOnlyIfFiled(hints[..|hints| - 1], key, cmd);
    }
  }

  lemma {:induction false} OffersAreFiled(entries: seq<Entry>, key: string, cmd: string)
    ensures Descs(entries, key, cmd) != [] ==> key != "" && StartsWith(cmd, key)
  {
    if entries != [] && key != "" {
      OffersAreFiled(entries[..|entries| - 1], key, cmd);
      DescsOnlyIfFiled(entries[|entries| - 1].hints, key, cmd);
    }
  }

  lemma {:induction false} MergeIsFiled(entries: seq<Entry>)
    ensures Filed(Merge(map[], entries))
  {
    hide StartsWith;
    var db := Merge(map[], entries);
    forall key, cmd | key in db && cmd in db[key] ensures key != "" && StartsWith(cmd, key) {
      MergeKeepsFirstLongest(entries, key, cmd);
      OffersAreFiled(entries, key, cmd);
      assert Lookup(SlotOf(db, key), cmd).Some?;
    }
  }

  lemma {:induction false} MergeNothing(db: Db)
    ensures Merge(db, []) == db
  {
  }

  lemma {:induction false} MergeSnoc(db: Db, entries: seq<Entry>, i: nat)
    requires i < |entries|
    ensures Merge(db, entries[..i + 1]) == MergeEntry(Merge(db, entries[..i]), entries[i])
  {
    assert entries[..i + 1][..i] == entries[..i];
  }

  lemma {:induction false} EntryMerged(db: Db, entry: Entry)
    ensures var key := Trim(entry.command);
            MergeEntry(db, entry) ==
            if key == "" then db
            else var slotted := if key in db then db else db[key := map[]];
                 slotted[key := AddHints(slotted[key], key, entry.hints)]
  {
    hide Trim, AddHints;
    var key := Trim(entry.command);
    var hints := AddHints(SlotOf(db, key), key, entry.hints);
    assert db[key := map[]][key := hints] == db[key := hints];
  }

  /** The database while it is being built. */
  class Builder {
    var byCommand: Db

    constructor ()
      ensures byCommand == map[]
    {
      byCommand := map[];
    }

    method MergeSuggestions(entries: seq<Entry>)
      modifies this
      ensures byCommand == Merge(old(byCommand), entries)
    {
      hide Merge, MergeEntry;
      MergeNothing(byCommand);
      var i := 0;
      while i < |entries|
        invariant i <= |entries| && byCommand == Merge(old(byCommand), entries[..i])
      {
        MergeSnoc(old(byCommand), entries, i);
        ghost var before := byCommand;
        var command := Trim(entries[i].command);
        if command != "" {
          if command !in byCommand {
            byCommand := byCommand[command := map[]];
          }
          MergeHints(command, entries[i].hints);
        }
        EntryMerged(before, entries[i]);
        i := i + 1;
      }
      assert entries[..|entries|] == entries;
    }

    method MergeHints(command: string, hints: seq<Example>)
      requires command in byCommand
      modifies this
      ensures byCommand == old(byCommand)[command := AddHints(old(byCommand)[command], command, hints)]
    {
      var h := 0;
      while h < |hints|
        invariant h <= |hints| && command in byCommand
        invariant byCommand == old(byCommand)[command := AddHints(old(byCommand)[command], command, hints[..h])]
      {
        assert hints[..h + 1][..h] == hints[..h];
        AddOne(command, hints[h]);
        h := h + 1;
      }
      assert hints[..|hints|] == hints;
    }

    method AddOne(command: string, hint: Example)
      requires command in byCommand
      modifies this
      ensures byCommand == old(byCommand)[command := AddHint(old(byCommand)[command], command, hint)]
    {
      var cmd := Trim(hint.cmd);
      if cmd == "" || !StartsWith(cmd, command) {
        assert byCommand == byCommand[command := byCommand[command]];
        return;
      }
      var desc := Trim(hint.desc);
      var slot := byCommand[command];
      if cmd in slot {
        var existing := slot[cmd];
        if existing == "" && desc != "" {
          slot := slot[cmd := desc];
        } else if Bytes(desc) > Bytes(existing) && desc != "" {
          slot := slot[cmd := desc];
        }
      } else {
        slot := slot[cmd := desc];
      }
      byCommand := byCommand[command := slot];
      assert slot == AddHint(old(byCommand)[command], command, hint);
    }
  }

  // Looking up.  The loaded database lists its commands and their examples in order.

  const LAST: char := '\U{10FFFF}'
  const LIMIT: nat := 500

  datatype Row = Row(key: string, examples: seq<Example>)
  datatype Candidate = Candidate(cmd: string, desc: Option<string>)

  ghost predicate Ordered(rows: seq<Row>) {
    forall i, j :: 0 <= i < j < |rows| ==> Before(rows[i].key, rows[j].key)
  }

  /** The rows list the database: commands in order, each with its examples in order. */
  ghost predicate Lists(rows: seq<Row>, db: Db) {
    && Ordered(rows)
    && (forall key :: key in db <==> exists i :: 0 <= i < |rows| && rows[i].key == key)
    && forall i :: 0 <= i < |rows| ==> rows[i].key in db && ListsSlot(rows[i].examples, db[rows[i].key])
  }

  ghost predicate ListsSlot(examples: seq<Example>, slot: Slot) {
    && (forall i, j :: 0 <= i < j < |examples| ==> Before(examples[i].cmd, examples[j].cmd))
    && (forall cmd :: cmd in slot <==> exists i :: 0 <= i < |examples| && examples[i].cmd == cmd)
    && forall i :: 0 <= i < |examples| ==> examples[i].cmd in slot && slot[examples[i].cmd] == examples[i].desc
  }

  ghost predicate Increasing(keys: seq<string>) {
    forall i, j :: 0 <= i < j < |keys| ==> Before(keys[i], keys[j])
  }

  function Inserted(key: string, keys: seq<string>): (r: seq<string>)
    ensures forall x :: x in r <==> x == key || x in keys
  {
    if keys == [] || Before(key, keys[0]) then [key] + keys
    else
      var rest := Inserted(key, keys[1..]);
      assert keys == [keys[0]] + keys[1..];
      [keys[0]] + rest
  }

  lemma {:induction false} InsertedIncreases(key: string, keys: seq<string>)
    requires Increasing(keys) && key !in keys
    ensures Increasing(Inserted(key, keys))
  {
    hide Before;
    var r := Inserted(key, keys);
    if keys == [] {
    } else if Before(key, keys[0]) {
      forall j | 0 < j < |r| ensures Before(r[0], r[j]) {
        assert r[j] == keys[j - 1];
        if j > 1 {
          Transitive(key, keys[0], keys[j - 1]);
        }
      }
    } else {
      InsertedIncreases(key, keys[1..]);
      var rest := Inserted(key, keys[1..]);
      Total(key, keys[0]);
      forall j | 0 < j < |r| ensures Before(r[0], r[j]) {
        assert r[j] == rest[j - 1] && rest[j - 1] in rest;
      }
    }
  }

  /** The ordered listing of some keys. */
  ghost function Listed(keys: set<string>): (r: seq<string>)
    ensures forall key :: key in r <==> key in keys
  {
    if keys == {} then []
    else var key :| key in keys; Inserted(key, Listed(keys - {key}))
  }

  lemma {:induction false} ListedIncreases(keys: set<string>)
    ensures Increasing(Listed(keys))
  {
    if keys != {} {
      var key :| key in keys && Listed(keys) == Inserted(key, Listed(keys - {key}));
      ListedIncreases(keys - {key});
      InsertedIncreases(key, Listed(keys - {key}));
    }
  }

  ghost function ExamplesOf(slot: Slot): seq<Example> {
    var cmds := Listed(slot.Keys);
    seq(|cmds|, i requires 0 <= i < |cmds| => assert cmds[i] in cmds; Example(cmds[i], slot[cmds[i]]))
  }

  /** The database as it is listed once all files are merged. */
  ghost function RowsOf(db: Db): seq<Row> {
    var keys := Listed(db.Keys);
    seq(|keys|, i requires 0 <= i < |keys| => assert keys[i] in keys; Row(keys[i], ExamplesOf(db[keys[i]])))
  }

  lemma {:induction false} ExamplesListSlot(slot: Slot)
    ensures ListsSlot(ExamplesOf(slot), slot)
  {
    hide Before, Listed;
    var cmds := Listed(slot.Keys);
    ListedIncreases(slot.Keys);
    var examples := ExamplesOf(slot);
    forall cmd ensures cmd in slot <==> exists i :: 0 <= i < |examples| && examples[i].cmd == cmd {
      assert cmd in slot <==> cmd in cmds;
      if cmd in cmds {
        var i :| 0 <= i < |cmds| && cmds[i] == cmd;
        assert examples[i].cmd == cmd;
      }
    }
  }

  /** Every database has such a listing. */
  lemma {:induction false} RowsListDb(db: Db)
    ensures Lists(RowsOf(db), db)
  {
    hide Before, Listed, ListsSlot, ExamplesOf;
    var keys := Listed(db.Keys);
    ListedIncreases(db.Keys);
    var rows := RowsOf(db);
    forall key ensures key in db <==> exists i :: 0 <= i < |rows| && rows[i].key == key {
      assert key in db <==> key in keys;
      if key in keys {
        var i :| 0 <= i < |keys| && keys[i] == key;
        assert rows[i].key == key;
      }
    }
    forall i | 0 <= i < |rows| ensures rows[i].key in db && ListsSlot(rows[i].examples, db[rows[i].key]) {
      assert keys[i] in keys;
      ExamplesListSlot(db[keys[i]]);
    }
  }

  /** The range scanned for a word: from the word to the word followed by the last code point, inclusive. */
  predicate InScan(word: string, key: string) {
    !Before(key, word) && !Before(word + [LAST], key)
  }

  /** The range is the one between the two texts' bytes. */
  lemma ScanByBytes(word: string, key: string)
    ensures InScan(word, key)
       <==> !BytesBefore(Encoded(key), Encoded(word)) && !BytesBefore(Encoded(word + [LAST]), Encoded(key))
  {
    BytesKeepOrder(key, word);
    BytesKeepOrder(word + [LAST], key);
  }

  /** The scan sees exactly the commands that start with the word, but not those where the last code point and
      more text follow the word. */
  lemma {:induction false} ScanIsPrefixFilter(word: string, key: string)
    ensures InScan(word, key) <==>
      StartsWith(key, word) && !(|key| > |word| + 1 && key[|word|] == LAST)
    decreases |word|
  {
    if word == "" {
      assert word + [LAST] == [LAST];
      if key != "" {
        assert [LAST][1..] == "";
        assert Before("", key[1..]) <==> key[1..] != "";
      }
    } else {
      StartsWithByHead(key, word);
      assert (word + [LAST])[0] == word[0];
      if key != "" && key[0] == word[0] {
        ScanIsPrefixFilter(word[1..], key[1..]);
        assert (word + [LAST])[1..] == word[1..] + [LAST];
      }
    }
  }

  lemma {:induction false} StartsWithByHead(s: string, prefix: string)
    requires prefix != ""
    ensures StartsWith(s, prefix) <==> s != "" && s[0] == prefix[0] && StartsWith(s[1..], prefix[1..])
  {
    if |prefix| <= |s| {
      assert s[..|prefix|] == [s[0]] + s[1..][..|prefix| - 1];
      assert prefix == [prefix[0]] + prefix[1..];
      assert s[..|prefix|] == prefix ==> s[..|prefix|][0] == prefix[0] && s[..|prefix|][1..] == prefix[1..];
    }
  }

  function CandidateOf(e: Example): Candidate {
    Candidate(e.cmd, if Trim(e.desc) == "" then None else Some(Trim(e.desc)))
  }

  function CandidatesOf(examples: seq<Example>): (r: seq<Candidate>)
    ensures |r| == |examples|
    ensures forall i :: 0 <= i < |r| ==> r[i] == CandidateOf(examples[i])
  {
    seq(|examples|, i requires 0 <= i < |examples| => CandidateOf(examples[i]))
  }

  /** The candidates of all commands that satisfy a test, in order. */
  function AllOf(rows: seq<Row>, test: string -> bool): seq<Candidate> {
    if rows == [] then []
    else
      AllOf(rows[..|rows| - 1], test)
      + if test(rows[|rows| - 1].key) then CandidatesOf(rows[|rows| - 1].examples) else []
  }

  function Cut(s: seq<Candidate>, n: nat): seq<Candidate> {
    if |s| <= n then s else s[..n]
  }

  function IsWord(word: string): string -> bool {
    (key: string) => key == word
  }

  function HasPrefix(word: string): string -> bool {
    (key: string) => StartsWith(key, word) && !(|key| > |word| + 1 && key[|word|] == LAST)
  }

  function Scanned(word: string): string -> bool {
    (key: string) => InScan(word, key)
  }

  /** What a lookup yields, in terms of prefixes: for a single character the examples of just that command, for
      longer words those of the commands starting with the word, up to a limit. */
  function Yielded(rows: seq<Row>, firstWord: string): seq<Candidate> {
    var word := Trim(firstWord);
    if word == "" then []
    else if |word| == 1 then AllOf(rows, IsWord(word))
    else Cut(AllOf(rows, HasPrefix(word)), LIMIT)
  }

  lemma {:induction false} SameTest(rows: seq<Row>, p: string -> bool, q: string -> bool)
    requires forall key :: p(key) <==> q(key)
    ensures AllOf(rows, p) == AllOf(rows, q)
  {
    if rows != [] {
      SameTest(rows[..|rows| - 1], p, q);
    }
  }

  lemma {:induction false} AllOfSnoc(rows: seq<Row>, i: nat, test: string -> bool)
    requires i < |rows|
    ensures AllOf(rows[..i + 1], test)
         == AllOf(rows[..i], test) + if test(rows[i].key) then CandidatesOf(rows[i].examples) else []
  {
    assert rows[..i + 1][..i] == rows[..i];
  }

  lemma {:induction false} AllOfGrows(rows: seq<Row>, i: nat, test: string -> bool)
    requires i <= |rows|
    ensures AllOf(rows[..i], test) <= AllOf(rows, test)
    decreases |rows| - i
  {
    if i == |rows| {
      assert rows[..i] == rows;
    } else {
      AllOfGrows(rows, i + 1, test);
      AllOfSnoc(rows, i, test);
    }
  }

  /** Every candidate comes from an example of a command that satisfies the test. */
  lemma {:induction false} CandidateFrom(rows: seq<Row>, test: string -> bool, c: Candidate)
    requires c in AllOf(rows, test)
    ensures exists i, k :: 0 <= i < |rows| && 0 <= k < |rows[i].examples| && test(rows[i].key)
                           && c == CandidateOf(rows[i].examples[k])
  {
    var init, row := rows[..|rows| - 1], rows[|rows| - 1];
    if c in AllOf(init, test) {
      CandidateFrom(init, test, c);
      var i, k :| 0 <= i < |init| && 0 <= k < |init[i].examples| && test(init[i].key)
                  && c == CandidateOf(init[i].examples[k]);
      assert rows[i] == init[i];
    } else {
      var k :| 0 <= k < |row.examples| && CandidatesOf(row.examples)[k] == c;
      assert rows[|rows| - 1].examples[k] == row.examples[k];
    }
  }

  lemma {:induction false} YieldedFrom(rows: seq<Row>, firstWord: string, c: Candidate)
    requires c in Yielded(rows, firstWord)
    ensures exists i, k :: 0 <= i < |rows| && 0 <= k < |rows[i].examples| && StartsWith(rows[i].key, Trim(firstWord))
                           && c == CandidateOf(rows[i].examples[k])
  {
    hide Trim, AllOf, CandidateOf;
    var word := Trim(firstWord);
    var test := if |word| == 1 then IsWord(word) else HasPrefix(word);
    assert c in AllOf(rows, test);
    CandidateFrom(rows, test, c);
    var i, k :| 0 <= i < |rows| && 0 <= k < |rows[i].examples| && test(rows[i].key)
                && c == CandidateOf(rows[i].examples[k]);
    assert StartsWith(rows[i].key, word);
  }

  lemma {:induction false} PrefixOfPrefix(a: string, b: string, c: string)
    requires StartsWith(a, b) && StartsWith(b, c)
    ensures StartsWith(a, c)
  {
    assert a[..|c|] == a[..|b|][..|c|];
  }

  lemma {:induction false} CandidateIn(rows: seq<Row>, test: string -> bool, i: nat, k: nat)
    requires i < |rows| && k < |rows[i].examples| && test(rows[i].key)
    ensures CandidateOf(rows[i].examples[k]) in AllOf(rows, test)
  {
    hide CandidateOf;
    if i == |rows| - 1 {
      assert CandidatesOf(rows[i].examples)[k] in CandidatesOf(rows[i].examples);
    } else {
      CandidateIn(rows[..|rows| - 1], test, i, k);
    }
  }

  lemma {:induction false} DescsAreTrimmed(entries: seq<Entry>, key: string, cmd: string, d: string)
    requires d in Descs(entries, key, cmd)
    ensures Trim(d) == d
  {
    hide Trim;
    var init, entry := entries[..|entries| - 1], entries[|entries| - 1];
    if d in Descs(init, key, cmd) {
      DescsAreTrimmed(init, key, cmd, d);
    } else {
      DescsInAreTrimmed(entry.hints, key, cmd, d);
    }
  }

  lemma {:induction false} DescsInAreTrimmed(hints: seq<Example>, key: string, cmd: string, d: string)
    requires d in DescsIn(hints, key, cmd)
    ensures Trim(d) == d
  {
    hide Trim, Accepted;
    var init, hint := hints[..|hints| - 1], hints[|hints| - 1];
    if d in DescsIn(init, key, cmd) {
      DescsInAreTrimmed(init, key, cmd, d);
    } else {
      TrimTwice(hint.desc);
    }
  }

  /** The files offer the candidate's command under this key, and its description is the first longest one offered,
      if that is not empty. */
  ghost predicate IsOffered(entries: seq<Entry>, key: string, c: Candidate) {
    exists d :: IsFirstLongest(Descs(entries, key, c.cmd), d) && c.desc == if d == "" then None else Some(d)
  }

  /** An example of the merged database is an offered candidate. */
  lemma {:induction false} ExampleIsOffered(entries: seq<Entry>, key: string, e: Example)
    requires Lookup(SlotOf(Merge(map[], entries), key), e.cmd) == Some(e.desc)
    ensures IsOffered(entries, key, CandidateOf(e))
  {
    hide Merge, Trim, Descs;
    MergeKeepsFirstLongest(entries, key, e.cmd);
    DescsAreTrimmed(entries, key, e.cmd, e.desc);
    assert IsFirstLongest(Descs(entries, key, e.cmd), e.desc);
  }

  lemma {:induction false} FirstLongestIsUnique(ds: seq<string>, d: string, d': string)
    requires IsFirstLongest(ds, d) && IsFirstLongest(ds, d')
    ensures d == d'
  {
    hide Bytes;
    var i :| 0 <= i < |ds| && ds[i] == d && forall j :: 0 <= j < i ==> Bytes(ds[j]) < Bytes(d);
    var i' :| 0 <= i' < |ds| && ds[i'] == d' && forall j :: 0 <= j < i' ==> Bytes(ds[j]) < Bytes(d');
    assert Bytes(ds[i]) == Bytes(ds[i']);
    assert i == i';
  }

  /** What a lookup selects from is exactly what the files offer under the commands that satisfy its test. */
  lemma {:induction false} SelectedIffOffered(entries: seq<Entry>, rows: seq<Row>, test: string -> bool, c: Candidate)
    requires Lists(rows, Merge(map[], entries))
    ensures c in AllOf(rows, test) <==> exists key :: test(key) && IsOffered(entries, key, c)
  {
    hide Merge, Before, AllOf, CandidateOf, IsOffered;
    var db := Merge(map[], entries);
    if c in AllOf(rows, test) {
      CandidateFrom(rows, test, c);
      var i, k :| 0 <= i < |rows| && 0 <= k < |rows[i].examples| && test(rows[i].key)
                  && c == CandidateOf(rows[i].examples[k]);
      assert ListsSlot(rows[i].examples, db[rows[i].key]);
      ExampleIsOffered(entries, rows[i].key, rows[i].examples[k]);
    }
    if key :| test(key) && IsOffered(entries, key, c) {
      var i, k := OfferedIsListed(entries, rows, key, c);
      CandidateIn(rows, test, i, k);
    }
  }

  lemma {:induction false} OfferedIsListed(entries: seq<Entry>, rows: seq<Row>, key: string, c: Candidate)
    returns (i: nat, k: nat)
    requires Lists(rows, Merge(map[], entries)) && IsOffered(entries, key, c)
    ensures i < |rows| && k < |rows[i].examples| && rows[i].key == key && CandidateOf(rows[i].examples[k]) == c
  {
    hide Merge, Before, Trim, Descs, IsFirstLongest, CandidateOf;
    var db, ds := Merge(map[], entries), Descs(entries, key, c.cmd);
    var d :| IsFirstLongest(ds, d) && c.desc == if d == "" then None else Some(d);
    assert ds != [] by {
      assert ds == [] ==> !IsFirstLongest(ds, d) by {
        NothingIsLongest(d);
      }
    }
    MergeKeepsFirstLongest(entries, key, c.cmd);
    var desc := db[key][c.cmd];
    FirstLongestIsUnique(ds, d, desc);
    i :| 0 <= i < |rows| && rows[i].key == key;
    assert ListsSlot(rows[i].examples, db[key]);
    k :| 0 <= k < |rows[i].examples| && rows[i].examples[k].cmd == c.cmd;
    assert rows[i].examples[k] == Example(c.cmd, desc);
    OfferedDesc(entries, key, c.cmd, desc);
    assert CandidateOf(Example(c.cmd, desc)) == c;
  }

  lemma {:induction false} NothingIsLongest(d: string)
    ensures !IsFirstLongest([], d)
  {
  }

  lemma {:induction false} OfferedDesc(entries: seq<Entry>, key: string, cmd: string, d: string)
    requires IsFirstLongest(Descs(entries, key, cmd), d)
    ensures CandidateOf(Example(cmd, d)) == Candidate(cmd, if d == "" then None else Some(d))
  {
    hide Trim, Descs, Bytes;
    DescsAreTrimmed(entries, key, cmd, d);
  }

  /** For every list of files and every word, each candidate starts with the trimmed word. */
  lemma {:induction false} CandidatesStartWithWord(entries: seq<Entry>, rows: seq<Row>, firstWord: string, c: Candidate)
    requires Lists(rows, Merge(map[], entries)) && c in Yielded(rows, firstWord)
    ensures StartsWith(c.cmd, Trim(firstWord))
  {
    hide Merge, Trim, StartsWith, Before, Yielded;
    var word := Trim(firstWord);
    YieldedFrom(rows, firstWord, c);
    var i, k :| 0 <= i < |rows| && 0 <= k < |rows[i].examples| && StartsWith(rows[i].key, word)
                && c == CandidateOf(rows[i].examples[k]);
    MergeIsFiled(entries);
    assert rows[i].key in Merge(map[], entries);
    assert StartsWith(rows[i].examples[k].cmd, rows[i].key);
    PrefixOfPrefix(c.cmd, rows[i].key, word);
  }

  /** A file offers a command that starts with the typed word, then the last code point, then more; looking the word
      up finds nothing. */
  lemma {:induction false} LastCodePointIsMissed(rows: seq<Row>)
    requires Lists(rows, Merge(map[], [Entry(MISSED, [Example(MISSED, "")])]))
    ensures StartsWith(MISSED, "ab")
    ensures IsOffered([Entry(MISSED, [Example(MISSED, "")])], MISSED, Candidate(MISSED, None))
    ensures Yielded(rows, "ab") == []
  {
    var entries := [Entry(MISSED, [Example(MISSED, "")])];
    var test := HasPrefix("ab");
    assert StartsWith(MISSED, "ab") && !test(MISSED) by {
      assert MISSED[..2] == "ab" && MISSED[2] == LAST;
    }
    TrimmedAlready(MISSED);
    TrimmedAlready("ab");
    TrimmedAlready("");
    hide Trim, Merge, IsWhitespace, Descs, IsFirstLongest, StartsWith, AllOf, HasPrefix, Lists;
    OneDesc(entries, MISSED, MISSED);
    OnlyIsLongest("");
    assert IsFirstLongest(Descs(entries, MISSED, MISSED), "");
    NothingSelected(entries, rows, test);
  }

  lemma {:induction false} NothingSelected(entries: seq<Entry>, rows: seq<Row>, test: string -> bool)
    requires entries == [Entry(MISSED, [Example(MISSED, "")])] && Lists(rows, Merge(map[], entries)) && !test(MISSED)
    ensures AllOf(rows, test) == []
  {
    TrimmedAlready(MISSED);
    hide Trim, Merge, IsWhitespace, Descs, IsFirstLongest, AllOf, Lists;
    forall c ensures c !in AllOf(rows, test) {
      SelectedIffOffered(entries, rows, test, c);
      forall key ensures !(test(key) && IsOffered(entries, key, c)) {
        OneDesc(entries, key, c.cmd);
        NoneIsLongest();
      }
    }
    NoElements(AllOf(rows, test));
  }

  lemma {:induction false} OnlyIsLongest(d: string)
    ensures IsFirstLongest([d], d)
  {
    assert [d][0] == d;
  }

  lemma {:induction false} NoneIsLongest()
    ensures forall d :: !IsFirstLongest([], d)
  {
  }

  lemma {:induction false} NoElements(s: seq<Candidate>)
    ensures s == [] <==> forall c :: c !in s
  {
    if s != [] {
      assert s[0] in s;
    }
  }

  const MISSED: string := "ab\U{10FFFF}x"

  lemma {:induction false} TrimmedAlready(s: string)
    requires s == "" || (!IsWhitespace(s[0]) && !IsWhitespace(s[|s| - 1]))
    ensures Trim(s) == s
  {
  }

  lemma {:induction false} OneDesc(entries: seq<Entry>, key: string, cmd: string)
    requires entries == [Entry(MISSED, [Example(MISSED, "")])] && Trim(MISSED) == MISSED
    ensures Descs(entries, key, cmd) == if key == MISSED && cmd == MISSED then [Trim("")] else []
  {
    var hints := entries[0].hints;
    assert entries[..0] == [] && hints[..0] == [];
    assert Descs([], key, cmd) == [] && DescsIn([], key, cmd) == [];
    assert DescsIn(hints, key, cmd) == DescsIn([], key, cmd)
      + if Accepted(key, hints[0]) && Trim(hints[0].cmd) == cmd then [Trim("")] else [];
    assert StartsWith(MISSED, MISSED);
  }

  /** Calls back for each candidate; the calls are collected. */
  method ForEachCandidate(rows: seq<Row>, firstWord: string) returns (calls: seq<Candidate>)
    requires Ordered(rows)
    ensures calls == Yielded(rows, firstWord)
  {
    hide Before, Trim;
    var word := Trim(firstWord);
    calls := [];
    if word == "" {
      return;
    }
    if |word| <= 1 {
      calls := ExactCandidates(rows, word);
      return;
    }
    calls := ScanCandidates(rows, word);
    forall key ensures Scanned(word)(key) <==> HasPrefix(word)(key) {
      ScanIsPrefixFilter(word, key);
    }
    SameTest(rows, Scanned(word), HasPrefix(word));
  }

  lemma {:induction false} NoneEqual(rows: seq<Row>, word: string)
    requires forall i :: 0 <= i < |rows| ==> rows[i].key != word
    ensures AllOf(rows, IsWord(word)) == []
  {
    if rows != [] {
      NoneEqual(rows[..|rows| - 1], word);
    }
  }

  /** At most one command equals the word. */
  lemma {:induction false} OneEqual(rows: seq<Row>, i: nat, word: string)
    requires Ordered(rows) && i < |rows| && rows[i].key == word
    ensures AllOf(rows, IsWord(word)) == CandidatesOf(rows[i].examples)
    decreases |rows|
  {
    hide Before;
    var init, last := rows[..|rows| - 1], rows[|rows| - 1];
    Irreflexive(word);
    if i == |rows| - 1 {
      NoneEqual(init, word);
    } else {
      assert Before(rows[i].key, last.key);
      OneEqual(init, i, word);
    }
  }

  method ExactCandidates(rows: seq<Row>, word: string) returns (calls: seq<Candidate>)
    requires Ordered(rows)
    ensures calls == AllOf(rows, IsWord(word))
  {
    var i := 0;
    while i < |rows|
      invariant i <= |rows| && forall j :: 0 <= j < i ==> rows[j].key != word
    {
      if rows[i].key == word {
        OneEqual(rows, i, word);
        return CandidatesOf(rows[i].examples);
      }
      i := i + 1;
    }
    NoneEqual(rows, word);
    return [];
  }

  lemma {:induction false} LimitReached(all: seq<Candidate>, before: seq<Candidate>, now: seq<Candidate>, k: nat)
    requires before + now <= all && k <= |now| && |before| + k == LIMIT
    ensures Cut(all, LIMIT) == before + now[..k]
  {
    assert all[..LIMIT] == (before + now)[..LIMIT] == before + now[..k];
  }

  method ScanCandidates(rows: seq<Row>, word: string) returns (calls: seq<Candidate>)
    ensures calls == Cut(AllOf(rows, Scanned(word)), LIMIT)
  {
    hide AllOf, InScan, CandidateOf;
    calls := [];
    assert AllOf(rows[..0], Scanned(word)) == [] by {
      AllOfNothing(rows[..0], Scanned(word));
    }
    var i := 0;
    while i < |rows|
      invariant i <= |rows| && |calls| < LIMIT && calls == AllOf(rows[..i], Scanned(word))
    {
      ghost var before := calls;
      AllOfSnoc(rows, i, Scanned(word));
      if InScan(word, rows[i].key) {
        var examples := rows[i].examples;
        var k := 0;
        while k < |examples|
          invariant k <= |examples| && |calls| < LIMIT && calls == before + CandidatesOf(examples)[..k]
        {
          calls := calls + [CandidateOf(examples[k])];
          k := k + 1;
          if |calls| >= LIMIT {
            AllOfGrows(rows, i + 1, Scanned(word));
            LimitReached(AllOf(rows, Scanned(word)), before, CandidatesOf(examples), k);
            return;
          }
        }
      }
      i := i + 1;
    }
    assert rows[..|rows|] == rows;
  }

  lemma {:induction false} AllOfNothing(rows: seq<Row>, test: string -> bool)
    requires rows == []
    ensures AllOf(rows, test) == []
  {
  }
}

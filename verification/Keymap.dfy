/** Terminal key bindings over an append-only keymap.

    The keymap can only grow, and the last binding of a key wins.  Changing or clearing an override is done by
    appending bindings; the question is when the log behaves like a map from actions to keys that is updated in
    place. */
module Keymap {
  import opened Text
  import opened Wrappers

  datatype Command = NoAction | Action(id: nat)
  datatype Binding = Binding(key: string, command: Command)

  /** What a key does: its last binding. */
  function Effective(log: seq<Binding>, key: string): Option<Command> {
    if log == [] then None
    else
      var last := log[|log| - 1];
      if last.key == key then Some(last.command) else Effective(log[..|log| - 1], key)
  }

  function Rebind(keys: seq<string>, command: Command): (r: seq<Binding>)
    ensures |r| == |keys|
  {
    if keys == [] then [] else Rebind(keys[..|keys| - 1], command) + [Binding(keys[|keys| - 1], command)]
  }

  /** The parser of keystrokes gives the key a text stands for, if it is valid; and each action's default keys. */
  datatype Config = Config(parse: string -> Option<string>, defaults: seq<seq<string>>)

  /** The keymap, and the override last applied for each action. */
  datatype State = State(log: seq<Binding>, overrides: seq<Option<string>>)

  datatype Edit = Edit(action: nat, text: Option<string>)

  ghost predicate Valid(c: Config, s: State) {
    && |s.overrides| == |c.defaults|
    && forall a :: 0 <= a < |s.overrides| && s.overrides[a].Some? ==> c.parse(s.overrides[a].value).Some?
  }

  function Requested(text: Option<string>): Option<string> {
    if text.None? || Trim(text.value) == "" then None else Some(Trim(text.value))
  }

  /** The edit changes nothing, or asks for something that is no key. */
  predicate Ignored(c: Config, s: State, e: Edit)
    requires e.action < |s.overrides|
  {
    var next := Requested(e.text);
    next == s.overrides[e.action] || (next.Some? && c.parse(next.value).None?)
  }

  function OverrideKeys(c: Config, text: Option<string>): seq<string> {
    if text.Some? && c.parse(text.value).Some? then [c.parse(text.value).value] else []
  }

  /** The keys an action should have. */
  function KeysOf(c: Config, a: nat, override: Option<string>): seq<string>
    requires a < |c.defaults|
  {
    if override.Some? then OverrideKeys(c, override) else c.defaults[a]
  }

  function Apply(c: Config, s: State, e: Edit): State
    requires e.action < |s.overrides| == |c.defaults|
  {
    if Ignored(c, s, e) then s
    else
      var next := Requested(e.text);
      var log := s.log + Rebind(OverrideKeys(c, s.overrides[e.action]), NoAction);
      State((if next.Some? then log + Rebind(c.defaults[e.action], NoAction) else log)
            + Rebind(KeysOf(c, e.action, next), Action(e.action)),
            s.overrides[e.action := next])
  }

  lemma {:induction false} ApplyKeepsValid(c: Config, s: State, e: Edit)
    requires Valid(c, s) && e.action < |c.defaults|
    ensures Valid(c, Apply(c, s, e))
  {
  }

  lemma {:induction false} EffectiveAfterRebind(log: seq<Binding>, keys: seq<string>, command: Command, key: string)
    ensures Effective(log + Rebind(keys, command), key)
         == if key in keys then Some(command) else Effective(log, key)
  {
    if keys == [] {
      assert log + Rebind(keys, command) == log;
    } else {
      var init, last := keys[..|keys| - 1], keys[|keys| - 1];
      EffectiveAfterRebind(log, init, command, key);
      var all := log + Rebind(keys, command);
      assert all[..|all| - 1] == log + Rebind(init, command);
      assert all[|all| - 1] == Binding(last, command);
      assert keys == init + [last];
    }
  }

  /** The keys an edit binds anew. */
  function Touched(c: Config, s: State, e: Edit): seq<string>
    requires e.action < |s.overrides| == |c.defaults|
  {
    if Ignored(c, s, e) then []
    else OverrideKeys(c, s.overrides[e.action]) + c.defaults[e.action] + KeysOf(c, e.action, Requested(e.text))
  }

  /** What every key does after an edit that is not ignored. */
  lemma {:induction false} EffectiveAfterEdit(c: Config, s: State, e: Edit, key: string)
    requires Valid(c, s) && e.action < |c.defaults| && !Ignored(c, s, e)
    ensures Effective(Apply(c, s, e).log, key)
         == if key in KeysOf(c, e.action, Requested(e.text)) then Some(Action(e.action))
            else if key in Touched(c, s, e) then Some(NoAction)
            else Effective(s.log, key)
  {
    hide Effective, Rebind, Requested;
    var next := Requested(e.text);
    var previous := OverrideKeys(c, s.overrides[e.action]);
    var log := s.log + Rebind(previous, NoAction);
    EffectiveAfterRebind(s.log, previous, NoAction, key);
    EffectiveAfterRebind(log, c.defaults[e.action], NoAction, key);
    var log' := if next.Some? then log + Rebind(c.defaults[e.action], NoAction) else log;
    EffectiveAfterRebind(log', KeysOf(c, e.action, next), Action(e.action), key);
  }

  /** Which edits change what, by their text: a missing or blank one clears the override, one that stands for a key
      becomes the override, and any other changes nothing; nor does one that asks for what is there. */
  lemma {:induction false} OverrideAfterEdit(c: Config, s: State, e: Edit)
    requires Valid(c, s) && e.action < |c.defaults|
    ensures var text := if e.text.Some? then Trim(e.text.value) else "";
            var s' := Apply(c, s, e);
            var asked := if text == "" then None else Some(text);
            if (text != "" && c.parse(text).None?) || s.overrides[e.action] == asked then s' == s
            else s'.overrides == s.overrides[e.action := asked]
  {
  }

  /** What every key does after an edit that sets an override to a new key. */
  lemma {:induction false} EffectiveAfterSetting(c: Config, s: State, a: nat, text: string, key: string)
    requires Valid(c, s) && a < |c.defaults| && Trim(text) != "" && c.parse(Trim(text)).Some?
    requires s.overrides[a] != Some(Trim(text))
    ensures Effective(Apply(c, s, Edit(a, Some(text))).log, key)
         == if key == c.parse(Trim(text)).value then Some(Action(a))
            else if key in c.defaults[a] || (s.overrides[a].Some? && c.parse(s.overrides[a].value) == Some(key))
            then Some(NoAction)
            else Effective(s.log, key)
  {
    hide Effective, Rebind, Trim, Apply;
    EffectiveAfterEdit(c, s, Edit(a, Some(text)), key);
  }

  /** And after one that clears it. */
  lemma {:induction false} EffectiveAfterClearing(c: Config, s: State, a: nat, text: Option<string>, key: string)
    requires Valid(c, s) && a < |c.defaults| && s.overrides[a].Some? && (text.None? || Trim(text.value) == "")
    ensures Effective(Apply(c, s, Edit(a, text)).log, key)
         == if key in c.defaults[a] then Some(Action(a))
            else if c.parse(s.overrides[a].value) == Some(key) then Some(NoAction)
            else Effective(s.log, key)
  {
    hide Effective, Rebind, Trim, Apply;
    EffectiveAfterEdit(c, s, Edit(a, text), key);
  }

  /** The log does what the map from actions to keys says: each action has exactly its override's key, or exactly
      its defaults. */
  ghost predicate Refines(c: Config, s: State)
    requires Valid(c, s)
  {
    forall a, key :: 0 <= a < |c.defaults| ==>
      (Effective(s.log, key) == Some(Action(a)) <==> key in KeysOf(c, a, s.overrides[a]))
  }

  /** The edit binds anew a key that belongs to another action. */
  ghost predicate Clashes(c: Config, s: State, e: Edit)
    requires Valid(c, s) && e.action < |c.defaults|
  {
    exists b, key ::
      0 <= b < |c.defaults| && b != e.action && key in Touched(c, s, e) && key in KeysOf(c, b, s.overrides[b])
  }

  /** An edit keeps the refinement exactly if it does not clash. */
  lemma {:induction false} EditExact(c: Config, s: State, e: Edit)
    requires Valid(c, s) && e.action < |c.defaults| && Refines(c, s)
    ensures Valid(c, Apply(c, s, e))
    ensures Refines(c, Apply(c, s, e)) <==> !Clashes(c, s, e)
  {
    ApplyKeepsValid(c, s, e);
    if !Ignored(c, s, e) {
      if Clashes(c, s, e) {
        ClashBreaks(c, s, e);
      } else {
        NoClashKeeps(c, s, e);
      }
    }
  }

  lemma {:induction false} ClashBreaks(c: Config, s: State, e: Edit)
    requires Valid(c, s) && e.action < |c.defaults| && Clashes(c, s, e)
    ensures Valid(c, Apply(c, s, e)) && !Refines(c, Apply(c, s, e))
  {
    hide Effective, Rebind, Requested;
    ApplyKeepsValid(c, s, e);
    var b, key :|
      0 <= b < |c.defaults| && b != e.action && key in Touched(c, s, e) && key in KeysOf(c, b, s.overrides[b]);
    EffectiveAfterEdit(c, s, e, key);
    var s' := Apply(c, s, e);
    assert s'.overrides[b] == s.overrides[b];
    assert Effective(s'.log, key) != Some(Action(b));
  }

  lemma {:induction false} NoClashKeeps(c: Config, s: State, e: Edit)
    requires Valid(c, s) && e.action < |c.defaults| && Refines(c, s) && !Clashes(c, s, e) && !Ignored(c, s, e)
    ensures Valid(c, Apply(c, s, e)) && Refines(c, Apply(c, s, e))
  {
    hide Effective, Rebind, Requested;
    ApplyKeepsValid(c, s, e);
    var s' := Apply(c, s, e);
    forall a, key | 0 <= a < |c.defaults|
      ensures Effective(s'.log, key) == Some(Action(a)) <==> key in KeysOf(c, a, s'.overrides[a])
    {
      EffectiveAfterEdit(c, s, e, key);
      if a != e.action {
        assert s'.overrides[a] == s.overrides[a];
        assert key in KeysOf(c, e.action, Requested(e.text)) ==> key in Touched(c, s, e);
        assert key in Touched(c, s, e) ==> key !in KeysOf(c, a, s.overrides[a]);
      } else {
        assert s'.overrides[a] == Requested(e.text);
        assert key in KeysOf(c, a, s.overrides[a]) ==> key in Touched(c, s, e);
      }
    }
  }

  // Whole runs of edits.

  ghost predicate InRange(c: Config, edits: seq<Edit>) {
    forall e :: e in edits ==> e.action < |c.defaults|
  }

  function Run(c: Config, s: State, edits: seq<Edit>): State
    requires |s.overrides| == |c.defaults| && forall e :: e in edits ==> e.action < |c.defaults|
    decreases |edits|
  {
    if edits == [] then s else Run(c, Apply(c, s, edits[0]), edits[1..])
  }

  ghost predicate RefinesThroughout(c: Config, s: State, edits: seq<Edit>)
    requires Valid(c, s) && InRange(c, edits)
    decreases |edits|
  {
    && Refines(c, s)
    && (edits == [] || (ApplyKeepsValid(c, s, edits[0]); RefinesThroughout(c, Apply(c, s, edits[0]), edits[1..])))
  }

  ghost predicate NeverClashes(c: Config, s: State, edits: seq<Edit>)
    requires Valid(c, s) && InRange(c, edits)
    decreases |edits|
  {
    edits == [] ||
    (ApplyKeepsValid(c, s, edits[0]); !Clashes(c, s, edits[0]) && NeverClashes(c, Apply(c, s, edits[0]), edits[1..]))
  }

  /** Along a whole run the log behaves like the map exactly if no edit of the run clashes. */
  lemma {:induction false} RunExact(c: Config, s: State, edits: seq<Edit>)
    requires Valid(c, s) && InRange(c, edits) && Refines(c, s)
    ensures RefinesThroughout(c, s, edits) <==> NeverClashes(c, s, edits)
    decreases |edits|
  {
    hide Refines, Clashes, Apply;
    if edits != [] {
      EditExact(c, s, edits[0]);
      var s' := Apply(c, s, edits[0]);
      if Refines(c, s') {
        RunExact(c, s', edits[1..]);
      } else {
        assert !RefinesThroughout(c, s', edits[1..]);
      }
    }
  }

  // The end of a run, which may go through states in which the log does not behave like the map.

  /** Whose edit touched a key last; `before` if none did. */
  function LastToTouch(c: Config, s: State, edits: seq<Edit>, key: string, before: Option<nat>): Option<nat>
    requires |s.overrides| == |c.defaults| && forall e :: e in edits ==> e.action < |c.defaults|
    decreases |edits|
  {
    if edits == [] then before
    else
      var last := if key in Touched(c, s, edits[0]) then Some(edits[0].action) else before;
      LastToTouch(c, Apply(c, s, edits[0]), edits[1..], key, last)
  }

  /** The key does the action exactly if it is one of the action's keys. */
  ghost predicate RefinesAt(c: Config, s: State, a: nat, key: string)
    requires a < |c.defaults| == |s.overrides|
  {
    Effective(s.log, key) == Some(Action(a)) <==> key in KeysOf(c, a, s.overrides[a])
  }

  /** What is known of a key from who touched it last. */
  ghost predicate Known(c: Config, s: State, key: string, last: Option<nat>)
    requires Valid(c, s)
  {
    match last
    case None => forall a :: 0 <= a < |c.defaults| ==> RefinesAt(c, s, a, key)
    case Some(a) =>
      a < |c.defaults| && RefinesAt(c, s, a, key) && forall b :: b != a ==> Effective(s.log, key) != Some(Action(b))
  }

  lemma {:induction false} EditKeepsKnown(c: Config, s: State, e: Edit, key: string, last: Option<nat>)
    requires Valid(c, s) && e.action < |c.defaults| && Known(c, s, key, last)
    ensures Valid(c, Apply(c, s, e))
    ensures Known(c, Apply(c, s, e), key, if key in Touched(c, s, e) then Some(e.action) else last)
  {
    hide Effective, Rebind, Requested;
    ApplyKeepsValid(c, s, e);
    if !Ignored(c, s, e) {
      EffectiveAfterEdit(c, s, e, key);
      var s' := Apply(c, s, e);
      assert s'.overrides[e.action] == Requested(e.text);
      assert forall a :: 0 <= a < |c.defaults| && a != e.action ==> s'.overrides[a] == s.overrides[a];
      assert key in KeysOf(c, e.action, s.overrides[e.action]) ==> key in Touched(c, s, e);
      assert key in KeysOf(c, e.action, s'.overrides[e.action]) ==> key in Touched(c, s, e);
      forall a | 0 <= a < |c.defaults| && a != e.action && key !in Touched(c, s, e)
        ensures RefinesAt(c, s', a, key) <==> RefinesAt(c, s, a, key)
      {
      }
      if key !in Touched(c, s, e) {
        assert Effective(s'.log, key) == Effective(s.log, key);
        assert last.None? || last == Some(e.action) ==> RefinesAt(c, s, e.action, key);
      }
    }
  }

  lemma {:induction false} RunKeepsKnown(c: Config, s: State, edits: seq<Edit>, key: string, last: Option<nat>)
    requires Valid(c, s) && InRange(c, edits) && Known(c, s, key, last)
    ensures Valid(c, Run(c, s, edits)) && Known(c, Run(c, s, edits), key, LastToTouch(c, s, edits, key, last))
    decreases |edits|
  {
    hide Known, Apply, Touched;
    if edits != [] {
      var e := edits[0];
      EditKeepsKnown(c, s, e, key, last);
      RunKeepsKnown(c, Apply(c, s, e), edits[1..], key, if key in Touched(c, s, e) then Some(e.action) else last);
    }
  }

  /** Every key an action ends up with was touched last by that action's own edit, if by any. */
  ghost predicate EndsWithOwner(c: Config, s: State, edits: seq<Edit>)
    requires Valid(c, s) && InRange(c, edits) && |Run(c, s, edits).overrides| == |c.defaults|
  {
    forall b, key :: 0 <= b < |c.defaults| && key in KeysOf(c, b, Run(c, s, edits).overrides[b]) ==>
      LastToTouch(c, s, edits, key, None) in {None, Some(b)}
  }

  /** At the end of a run the log behaves like the map exactly if every key an action ends up with was touched last
      by that action. */
  lemma {:induction false} EndExact(c: Config, s: State, edits: seq<Edit>)
    requires Valid(c, s) && InRange(c, edits) && Refines(c, s)
    ensures Valid(c, Run(c, s, edits))
    ensures Refines(c, Run(c, s, edits)) <==> EndsWithOwner(c, s, edits)
  {
    hide Run, LastToTouch, Effective, KeysOf;
    var end := Run(c, s, edits);
    forall key ensures Valid(c, end) && Known(c, end, key, LastToTouch(c, s, edits, key, None)) {
      assert Known(c, s, key, None);
      RunKeepsKnown(c, s, edits, key, None);
    }
    assert Known(c, end, "", LastToTouch(c, s, edits, "", None));
    forall a, key | 0 <= a < |c.defaults|
      ensures RefinesAt(c, end, a, key) <==>
                (key in KeysOf(c, a, end.overrides[a]) ==> LastToTouch(c, s, edits, key, None) in {None, Some(a)})
    {
      assert Known(c, end, key, LastToTouch(c, s, edits, key, None));
    }
    RefinesEverywhere(c, end);
  }

  lemma {:induction false} RefinesEverywhere(c: Config, s: State)
    requires Valid(c, s)
    ensures Refines(c, s) <==> forall a, key :: 0 <= a < |c.defaults| ==> RefinesAt(c, s, a, key)
  {
    hide Effective, KeysOf;
    if forall a, key :: 0 <= a < |c.defaults| ==> RefinesAt(c, s, a, key) {
      forall a, key | 0 <= a < |c.defaults|
        ensures Effective(s.log, key) == Some(Action(a)) <==> key in KeysOf(c, a, s.overrides[a])
      {
        assert RefinesAt(c, s, a, key);
      }
    }
  }

  /** Keys are shared out among the actions: defaults and overrides of an action are among its own keys. */
  ghost predicate Owned(c: Config, owner: string -> nat, edits: seq<Edit>) {
    && (forall a, key :: 0 <= a < |c.defaults| && key in c.defaults[a] ==> owner(key) == a)
    && (forall e, key :: e in edits && key in OverrideKeys(c, Requested(e.text)) ==> owner(key) == e.action)
  }

  ghost predicate OwnOverrides(c: Config, owner: string -> nat, s: State)
    requires Valid(c, s)
  {
    forall a, key :: 0 <= a < |c.defaults| && key in OverrideKeys(c, s.overrides[a]) ==> owner(key) == a
  }

  /** With keys shared out, the log behaves like the map along every run. */
  lemma {:induction false} OwnedRunRefines(c: Config, owner: string -> nat, s: State, edits: seq<Edit>)
    requires Valid(c, s) && InRange(c, edits) && Refines(c, s)
    requires Owned(c, owner, edits) && OwnOverrides(c, owner, s)
    ensures NeverClashes(c, s, edits) && RefinesThroughout(c, s, edits)
    decreases |edits|
  {
    hide Requested, OverrideKeys, Effective, Rebind;
    if edits != [] {
      var e := edits[0];
      assert forall key :: key in Touched(c, s, e) ==> owner(key) == e.action;
      EditExact(c, s, e);
      var s' := Apply(c, s, e);
      assert forall a :: 0 <= a < |c.defaults| && a != e.action ==> s'.overrides[a] == s.overrides[a];
      OwnedRunRefines(c, owner, s', edits[1..]);
    }
  }

  /** Before any edit the defaults are bound, action by action. */
  function Initial(c: Config, n: nat): seq<Binding>
    requires n <= |c.defaults|
  {
    if n == 0 then [] else Initial(c, n - 1) + Rebind(c.defaults[n - 1], Action(n - 1))
  }

  lemma {:induction false} EffectiveInitially(c: Config, n: nat, key: string)
    requires n <= |c.defaults|
    requires forall a, b :: 0 <= a < b < |c.defaults| && key in c.defaults[a] ==> key !in c.defaults[b]
    ensures forall a :: 0 <= a < |c.defaults| ==>
      (Effective(Initial(c, n), key) == Some(Action(a)) <==> a < n && key in c.defaults[a])
  {
    if n > 0 {
      EffectiveInitially(c, n - 1, key);
      EffectiveAfterRebind(Initial(c, n - 1), c.defaults[n - 1], Action(n - 1), key);
    }
  }

  lemma {:induction false} InitiallyRefines(c: Config)
    requires forall a, b, key :: 0 <= a < b < |c.defaults| && key in c.defaults[a] ==> key !in c.defaults[b]
    ensures var s := State(Initial(c, |c.defaults|), seq(|c.defaults|, _ => None));
            Valid(c, s) && Refines(c, s)
  {
    hide Effective, Initial;
    var s := State(Initial(c, |c.defaults|), seq(|c.defaults|, _ => None));
    forall a, key | 0 <= a < |c.defaults|
      ensures Effective(s.log, key) == Some(Action(a)) <==> key in KeysOf(c, a, s.overrides[a])
    {
      EffectiveInitially(c, |c.defaults|, key);
    }
  }

  /** Two actions with one default key each, bound and not overridden. */
  function TwoActions(): Config {
    Config(text => Some(text), [["c"], ["v"]])
  }

  function BothBound(): State {
    State([Binding("c", Action(0)), Binding("v", Action(1))], [None, None])
  }

  lemma {:induction false} BothBoundRefines()
    ensures Valid(TwoActions(), BothBound()) && Refines(TwoActions(), BothBound())
  {
    forall key ensures Effective(BothBound().log, key) ==
      (if key == "v" then Some(Action(1)) else if key == "c" then Some(Action(0)) else None)
    {
      var one := [Binding("c", Action(0))];
      assert BothBound().log[..1] == one && one[..0] == [];
      assert Effective(one, key) == if key == "c" then Some(Action(0)) else None;
    }
  }

  /** An override that takes another action's key is not undone by clearing it: the other action is left without
      any key, although no override is set any more. */
  lemma {:induction false} ClearingDoesNotGiveBack()
    ensures var edits := [Edit(0, Some("v")), Edit(0, None)];
            var s := Run(TwoActions(), BothBound(), edits);
            s.overrides == BothBound().overrides && forall key :: Effective(s.log, key) != Some(Action(1))
  {
    hide Effective, Rebind;
    var c, s := TwoActions(), BothBound();
    BothBoundRefines();
    var e0, e1 := Edit(0, Some("v")), Edit(0, None);
    assert TrimStart("v") == "v" && TrimEnd("v") == "v";
    ApplyKeepsValid(c, s, e0);
    var s1 := Apply(c, s, e0);
    var s2 := Apply(c, s1, e1);
    assert s2.overrides == [None, None];
    forall key ensures Effective(s2.log, key) != Some(Action(1)) {
      EffectiveAfterEdit(c, s, e0, key);
      EffectiveAfterEdit(c, s1, e1, key);
    }
    assert [e0, e1][1..] == [e1] && [e1][1..] == [];
    assert Run(c, s, [e0, e1]) == Run(c, s1, [e1]) == Run(c, s2, []) == s2;
  }

  /** Two actions swap their keys in one application of the settings: the keys they end up with are different, and
      still the first one's does nothing. */
  lemma {:induction false} SwappedKeysFail()
    ensures var edits := [Edit(0, Some("v")), Edit(1, Some("c"))];
            var s := Run(TwoActions(), BothBound(), edits);
            && s.overrides == [Some("v"), Some("c")]
            && Effective(s.log, "v") == Some(NoAction)
            && LastToTouch(TwoActions(), BothBound(), edits, "v", None) == Some(1)
  {
    hide Effective, Rebind;
    var c, s := TwoActions(), BothBound();
    BothBoundRefines();
    var e0, e1 := Edit(0, Some("v")), Edit(1, Some("c"));
    assert TrimStart("v") == "v" && TrimEnd("v") == "v" && TrimStart("c") == "c" && TrimEnd("c") == "c";
    ApplyKeepsValid(c, s, e0);
    var s1 := Apply(c, s, e0);
    var s2 := Apply(c, s1, e1);
    assert s1.overrides == [Some("v"), None] && s2.overrides == [Some("v"), Some("c")];
    EffectiveAfterEdit(c, s1, e1, "v");
    assert [e0, e1][1..] == [e1] && [e1][1..] == [];
    assert Run(c, s, [e0, e1]) == Run(c, s1, [e1]) == Run(c, s2, []) == s2;
    assert "v" in Touched(c, s1, e1);
    assert LastToTouch(c, s2, [], "v", Some(1)) == Some(1);
    assert LastToTouch(c, s1, [e1], "v", Some(0)) == Some(1);
  }

  lemma {:induction false} RebindSnoc(keys: seq<string>, i: nat, command: Command)
    requires i < |keys|
    ensures Rebind(keys[..i + 1], command) == Rebind(keys[..i], command) + [Binding(keys[i], command)]
  {
    var longer := keys[..i + 1];
    assert longer[..|longer| - 1] == keys[..i];
  }

  /** The application: its keymap and the overrides it has applied. */
  class App {
    const config: Config
    var keymap: seq<Binding>
    var overrides: seq<Option<string>>

    ghost function Abstract(): State
      reads this
    {
      State(keymap, overrides)
    }

    constructor (config: Config)
      ensures this.config == config
      ensures Abstract() == State(Initial(config, |config.defaults|), seq(|config.defaults|, _ => None))
    {
      this.config := config;
      overrides := seq(|config.defaults|, _ => None);
      keymap := [];
      new;
      var n := 0;
      while n < |config.defaults|
        invariant n <= |config.defaults| && keymap == Initial(config, n)
        invariant overrides == seq(|config.defaults|, _ => None)
      {
        BindAll(config.defaults[n], Action(n));
        n := n + 1;
      }
    }

    /** Appends a binding for each key in turn. */
    method BindAll(keys: seq<string>, command: Command)
      modifies this`keymap
      ensures keymap == old(keymap) + Rebind(keys, command)
    {
      var i := 0;
      while i < |keys|
        invariant i <= |keys|
        invariant keymap == old(keymap) + Rebind(keys[..i], command)
      {
        RebindSnoc(keys, i, command);
        keymap := keymap + [Binding(keys[i], command)];
        i := i + 1;
      }
      assert keys[..|keys|] == keys;
    }

    method ApplyTerminalBinding(action: nat, text: Option<string>)
      requires action < |config.defaults| && Valid(config, Abstract())
      modifies this`keymap, this`overrides
      ensures Abstract() == Apply(config, old(Abstract()), Edit(action, text))
      ensures Valid(config, Abstract())
    {
      hide Requested, Rebind;
      ApplyKeepsValid(config, Abstract(), Edit(action, text));
      var previous, next := overrides[action], Requested(text);
      if previous == next {
        return;
      }
      if next.Some? && config.parse(next.value).None? {
        return;
      }
      if previous.Some? {
        BindAll([config.parse(previous.value).value], NoAction);
      } else {
        NothingToBind(keymap, NoAction);
      }
      if next.Some? {
        BindAll(config.defaults[action], NoAction);
        BindAll([config.parse(next.value).value], Action(action));
      } else {
        BindAll(config.defaults[action], Action(action));
      }
      overrides := overrides[action := next];
    }

    /** Applies the settings of all actions in turn. */
    method ApplyTerminalKeybindings(texts: seq<Option<string>>)
      requires |texts| == |config.defaults| && Valid(config, Abstract())
      modifies this`keymap, this`overrides
      ensures Valid(config, Abstract())
      ensures Abstract() == Run(config, old(Abstract()), EditsFrom(texts, 0))
    {
      var a := 0;
      while a < |texts|
        invariant a <= |texts| && Valid(config, Abstract())
        invariant Run(config, Abstract(), EditsFrom(texts, a)) == Run(config, old(Abstract()), EditsFrom(texts, 0))
      {
        var edits := EditsFrom(texts, a);
        assert edits[1..] == EditsFrom(texts, a + 1);
        ApplyTerminalBinding(a, texts[a]);
        a := a + 1;
      }
    }
  }

  lemma {:induction false} NothingToBind(log: seq<Binding>, command: Command)
    ensures log + Rebind([], command) == log
  {
  }

  function EditsFrom(texts: seq<Option<string>>, a: nat): (r: seq<Edit>)
    requires a <= |texts|
    ensures forall e :: e in r ==> a <= e.action < |texts|
    decreases |texts| - a
  {
    if a == |texts| then [] else [Edit(a, texts[a])] + EditsFrom(texts, a + 1)
  }

  /** There is one edit for each action, in order. */
  lemma {:induction false} EveryActionIsEdited(texts: seq<Option<string>>, n: nat, a: nat)
    requires n <= a < |texts|
    ensures |EditsFrom(texts, n)| == |texts| - n && EditsFrom(texts, n)[a - n] == Edit(a, texts[a])
    decreases |texts| - n
  {
    if n < a {
      EveryActionIsEdited(texts, n + 1, a);
    } else if n + 1 < |texts| {
      EveryActionIsEdited(texts, n + 1, n + 1);
    }
  }

  /** After the settings of all actions are applied, each action's override is what its text asks for: none for a
      missing or blank one, the text if it stands for a key, and otherwise what it was. */
  lemma {:induction false} OverridesAfterSettings(c: Config, s: State, texts: seq<Option<string>>, n: nat, a: nat)
    requires Valid(c, s) && |texts| == |c.defaults| && n <= |texts| && a < |texts|
    ensures |Run(c, s, EditsFrom(texts, n)).overrides| == |c.defaults|
    ensures var text := if texts[a].Some? then Trim(texts[a].value) else "";
            Run(c, s, EditsFrom(texts, n)).overrides[a]
            == if a < n || (text != "" && c.parse(text).None?) then s.overrides[a]
               else if text == "" then None else Some(text)
    decreases |texts| - n
  {
    hide Trim, Apply;
    if n < |texts| {
      var e := Edit(n, texts[n]);
      assert EditsFrom(texts, n)[1..] == EditsFrom(texts, n + 1);
      ApplyKeepsValid(c, s, e);
      OverrideAfterEdit(c, s, e);
      OverridesAfterSettings(c, Apply(c, s, e), texts, n + 1, a);
    }
  }
}

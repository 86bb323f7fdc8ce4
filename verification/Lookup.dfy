/** What a lookup of suggestions yields, in terms of the files alone.

    The offers of all files under the matching commands, listed by command and then by example, are what is called
    back, cut at 500 unless a single character was typed. */
module Lookups {
  import opened Suggestions
  import opened Text
  import opened Utf8
  import opened Wrappers

  // ------------------------------------------------------------------------------------------
  // What the files offer
  // ------------------------------------------------------------------------------------------

  /** One example offers its description for itself under its file's command, if it starts with that command. */
  lemma OneExampleOffers(command: string, hint: Example, key: string, cmd: string)
    ensures Descs([Entry(command, [hint])], key, cmd)
         == if key != "" && Trim(command) == key && cmd != "" && Trim(hint.cmd) == cmd && key <= cmd
            then [Trim(hint.desc)] else []
  {
    hide Trim;
    var entries, hints := [Entry(command, [hint])], [hint];
    assert entries[..0] == [] && hints[..0] == [];
    assert Descs([], key, cmd) == [] && DescsIn([], key, cmd) == [];
    assert StartsWith(Trim(hint.cmd), key) <==> key <= Trim(hint.cmd);
  }

  lemma {:induction false} HintsInTurn(a: seq<Example>, b: seq<Example>, key: string, cmd: string)
    ensures DescsIn(a + b, key, cmd) == DescsIn(a, key, cmd) + DescsIn(b, key, cmd)
    decreases |b|
  {
    hide Accepted, Trim;
    if b == [] {
      assert a + b == a;
    } else {
      var init, last := b[..|b| - 1], b[|b| - 1];
      HintsInTurn(a, init, key, cmd);
      assert (a + b)[..|a + b| - 1] == a + init && (a + b)[|a + b| - 1] == last;
    }
  }

  /** Files, and the examples of a file, offer theirs one after the other. */
  lemma {:induction false} FilesInTurn(a: seq<Entry>, b: seq<Entry>, key: string, cmd: string)
    ensures Descs(a + b, key, cmd) == Descs(a, key, cmd) + Descs(b, key, cmd)
    decreases |b|
  {
    hide Trim, DescsIn;
    if b == [] {
      assert a + b == a;
    } else {
      var init, last := b[..|b| - 1], b[|b| - 1];
      FilesInTurn(a, init, key, cmd);
      assert (a + b)[..|a + b| - 1] == a + init && (a + b)[|a + b| - 1] == last;
    }
  }

  lemma ExamplesInTurn(command: string, a: seq<Example>, b: seq<Example>, key: string, cmd: string)
    ensures Descs([Entry(command, a + b)], key, cmd)
         == Descs([Entry(command, a)], key, cmd) + Descs([Entry(command, b)], key, cmd)
  {
    hide Trim, DescsIn;
    HintsInTurn(a, b, key, cmd);
    OneFile(command, a, key, cmd);
    OneFile(command, b, key, cmd);
    OneFile(command, a + b, key, cmd);
  }

  lemma OneFile(command: string, hints: seq<Example>, key: string, cmd: string)
    ensures Descs([Entry(command, hints)], key, cmd)
         == if key != "" && Trim(command) == key then DescsIn(hints, key, cmd) else []
  {
    hide Trim, DescsIn;
    assert [Entry(command, hints)][..0] == [];
    assert Descs([], key, cmd) == [];
  }

  // ------------------------------------------------------------------------------------------
  // The offers in order
  // ------------------------------------------------------------------------------------------

  datatype Offer = Offer(command: string, candidate: Candidate)

  /** By command, and then by example; none twice. */
  ghost predicate InOrder(all: seq<Offer>) {
    forall i, j :: 0 <= i < j < |all| ==>
      || Before(all[i].command, all[j].command)
      || (all[i].command == all[j].command && Before(all[i].candidate.cmd, all[j].candidate.cmd))
  }

  function Candidates(all: seq<Offer>): (r: seq<Candidate>)
    ensures |r| == |all|
    ensures forall i :: 0 <= i < |all| ==> r[i] == all[i].candidate
  {
    seq(|all|, i requires 0 <= i < |all| => all[i].candidate)
  }

  function OffersOf(row: Row): (r: seq<Offer>)
    ensures |r| == |row.examples|
    ensures forall i :: 0 <= i < |r| ==> r[i] == Offer(row.key, CandidateOf(row.examples[i]))
  {
    seq(|row.examples|, i requires 0 <= i < |row.examples| => Offer(row.key, CandidateOf(row.examples[i])))
  }

  function Selected(rows: seq<Row>, test: string -> bool): seq<Offer> {
    if rows == [] then []
    else
      Selected(rows[..|rows| - 1], test) + if test(rows[|rows| - 1].key) then OffersOf(rows[|rows| - 1]) else []
  }

  lemma {:induction false} SelectedCandidates(rows: seq<Row>, test: string -> bool)
    ensures Candidates(Selected(rows, test)) == AllOf(rows, test)
  {
    hide CandidateOf;
    if rows != [] {
      var init, last := rows[..|rows| - 1], rows[|rows| - 1];
      SelectedCandidates(init, test);
      assert Candidates(OffersOf(last)) == CandidatesOf(last.examples);
    }
  }

  lemma {:induction false} SelectedFrom(rows: seq<Row>, test: string -> bool, o: Offer)
    ensures o in Selected(rows, test) <==>
              exists i, k :: 0 <= i < |rows| && 0 <= k < |rows[i].examples| && test(rows[i].key)
                             && o == Offer(rows[i].key, CandidateOf(rows[i].examples[k]))
  {
    hide CandidateOf;
    if rows != [] {
      var init, last := rows[..|rows| - 1], rows[|rows| - 1];
      SelectedFrom(init, test, o);
      assert forall i :: 0 <= i < |init| ==> init[i] == rows[i];
      if test(last.key) && o in OffersOf(last) {
        var k :| 0 <= k < |last.examples| && OffersOf(last)[k] == o;
        assert rows[|rows| - 1].examples[k] == last.examples[k];
      }
    }
  }

  ghost predicate ExamplesInOrder(examples: seq<Example>) {
    forall i, j :: 0 <= i < j < |examples| ==> Before(examples[i].cmd, examples[j].cmd)
  }

  lemma {:induction false} SelectedInOrder(rows: seq<Row>, test: string -> bool)
    requires Ordered(rows) && forall i :: 0 <= i < |rows| ==> ExamplesInOrder(rows[i].examples)
    ensures InOrder(Selected(rows, test))
  {
    hide CandidateOf, Before, Selected;
    if rows == [] {
      assert Selected([], test) == [] by { NothingSelectedFrom(test); }
    } else {
      var init, last := rows[..|rows| - 1], rows[|rows| - 1];
      assert forall i :: 0 <= i < |init| ==> init[i] == rows[i];
      SelectedInOrder(init, test);
      SelectedSnoc(rows, test);
      if test(last.key) {
        forall o | o in Selected(init, test) ensures Before(o.command, last.key) {
          SelectedFrom(init, test, o);
          var i, k :| 0 <= i < |init| && 0 <= k < |init[i].examples| && test(init[i].key)
                      && o == Offer(init[i].key, CandidateOf(init[i].examples[k]));
          assert Before(rows[i].key, rows[|rows| - 1].key);
        }
        assert ExamplesInOrder(last.examples);
        OneRowInOrder(last);
        JoinedInOrder(Selected(init, test), OffersOf(last), last.key);
      } else {
        assert Selected(init, test) + [] == Selected(init, test);
      }
    }
  }

  lemma NothingSelectedFrom(test: string -> bool)
    ensures Selected([], test) == []
  {
  }

  lemma SelectedSnoc(rows: seq<Row>, test: string -> bool)
    requires rows != []
    ensures var init, last := rows[..|rows| - 1], rows[|rows| - 1];
            Selected(rows, test) == Selected(init, test) + if test(last.key) then OffersOf(last) else []
  {
  }

  lemma OneRowInOrder(row: Row)
    requires ExamplesInOrder(row.examples)
    ensures InOrder(OffersOf(row))
  {
    hide Before, Trim;
  }

  lemma JoinedInOrder(a: seq<Offer>, b: seq<Offer>, key: string)
    requires InOrder(a) && InOrder(b)
    requires forall o :: o in a ==> Before(o.command, key)
    requires forall o :: o in b ==> o.command == key
    ensures InOrder(a + b)
  {
    hide Before;
    var all := a + b;
    forall i, j | 0 <= i < j < |all|
      ensures Before(all[i].command, all[j].command)
              || (all[i].command == all[j].command && Before(all[i].candidate.cmd, all[j].candidate.cmd))
    {
      if i < |a| && j < |a| {
        assert all[i] == a[i] && all[j] == a[j];
      } else if i < |a| {
        assert all[i] == a[i] && all[i] in a && all[j] == b[j - |a|] && all[j] in b;
      } else {
        assert all[i] == b[i - |a|] && all[j] == b[j - |a|];
      }
    }
  }

  // ------------------------------------------------------------------------------------------
  // The lookup
  // ------------------------------------------------------------------------------------------

  /** The commands a trimmed word stands for: a single character for just that command, a longer word for all that start
      with it, but for those with more text after the word and the last code point. */
  predicate Matches(word: string, command: string) {
    if |word| == 1 then command == word
    else word != "" && word <= command && !(word + "\U{10FFFF}" < command)
  }

  /** Exactly the offers of the files under the matching commands are called back, in order, and after 500 of them no
      more, unless the word is a single character. */
  lemma LookupIsExact(entries: seq<Entry>, rows: seq<Row>, firstWord: string) returns (all: seq<Offer>)
    requires Lists(rows, Merge(map[], entries))
    ensures InOrder(all)
    ensures forall o :: o in all <==> Matches(Trim(firstWord), o.command) && IsOffered(entries, o.command, o.candidate)
    ensures Yielded(rows, firstWord)
         == Candidates(if |Trim(firstWord)| == 1 || |all| <= 500 then all else all[..500])
  {
    hide Merge, Trim, Before, AllOf, Selected, CandidateOf, IsOffered, InOrder, Matches;
    var word := Trim(firstWord);
    var test := (command: string) => Matches(word, command);
    all := Selected(rows, test);
    SelectedCandidates(rows, test);
    forall i | 0 <= i < |rows| ensures ExamplesInOrder(rows[i].examples) {
      assert ListsSlot(rows[i].examples, Merge(map[], entries)[rows[i].key]);
    }
    SelectedInOrder(rows, test);
    forall o ensures o in all <==> test(o.command) && IsOffered(entries, o.command, o.candidate) {
      SelectedIfOffered(entries, rows, test, o);
    }
    YieldedAll(rows, firstWord, test);
    assert |all| > 500 ==> Candidates(all)[..500] == Candidates(all[..500]);
  }

  lemma SelectedIfOffered(entries: seq<Entry>, rows: seq<Row>, test: string -> bool, o: Offer)
    requires Lists(rows, Merge(map[], entries))
    ensures o in Selected(rows, test) <==> test(o.command) && IsOffered(entries, o.command, o.candidate)
  {
    hide Merge, Before, Selected, CandidateOf, IsOffered;
    SelectedFrom(rows, test, o);
    var db := Merge(map[], entries);
    if o in Selected(rows, test) {
      var i, k :| 0 <= i < |rows| && 0 <= k < |rows[i].examples| && test(rows[i].key)
                  && o == Offer(rows[i].key, CandidateOf(rows[i].examples[k]));
      assert ListsSlot(rows[i].examples, db[rows[i].key]);
      ExampleIsOffered(entries, rows[i].key, rows[i].examples[k]);
    }
    if test(o.command) && IsOffered(entries, o.command, o.candidate) {
      var i, k := OfferedIsListed(entries, rows, o.command, o.candidate);
    }
  }

  lemma YieldedAll(rows: seq<Row>, firstWord: string, test: string -> bool)
    requires forall command :: test(command) <==> Matches(Trim(firstWord), command)
    ensures Yielded(rows, firstWord)
         == var all := AllOf(rows, test);
            if |Trim(firstWord)| == 1 || |all| <= 500 then all else all[..500]
  {
    hide Trim, AllOf;
    var word := Trim(firstWord);
    if word == "" {
      NoneMatches(rows, test);
    } else if |word| == 1 {
      SameTest(rows, test, IsWord(word));
    } else {
      forall command ensures test(command) <==> HasPrefix(word)(command) {
        PrefixOrMissed(word, command);
      }
      SameTest(rows, test, HasPrefix(word));
    }
  }

  lemma {:induction false} NoneMatches(rows: seq<Row>, test: string -> bool)
    requires forall command :: !test(command)
    ensures AllOf(rows, test) == []
  {
    if rows != [] {
      NoneMatches(rows[..|rows| - 1], test);
    }
  }

  lemma PrefixOrMissed(word: string, command: string)
    ensures HasPrefix(word)(command) <==> word <= command && !(word + "\U{10FFFF}" < command)
  {
    assert StartsWith(command, word) <==> word <= command;
    if word <= command && |command| > |word| + 1 {
      assert command[..|word| + 1] == word + [command[|word|]];
    }
  }
}

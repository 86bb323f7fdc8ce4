/** Fenced code blocks in an assistant's reply.

    A text is read as prose and blocks: a fence, a tag up to the end of the line, a body, a closing fence.  Reading
    stops at the first block that is not closed. */
module Fences {
  import opened Sequences
  import opened Text
  import opened Wrappers

  const FENCE: string := "```"

  datatype Doc =
    | End(prose: string, tail: string)
    | Fenced(prose: string, tag: string, body: string, rest: Doc)

  datatype CodeBlock = CodeBlock(lang: Option<string>, body: string)

  /** What the search from some position finds next. */
  datatype Next = Nothing | Unclosed(open: nat) | Closed(open: nat, tagEnd: nat, close: nat)

  function NextBlock(s: string, ix: nat): (r: Next)
    requires ix <= |s|
    ensures r.Unclosed? ==> ix <= r.open && r.open + 3 <= |s|
    ensures r.Closed? ==> ix <= r.open && r.open + 3 <= r.tagEnd && r.tagEnd + 1 <= r.close && r.close + 3 <= |s|
  {
    match FindFrom(s, FENCE, ix)
    case None => Nothing
    case Some(open) =>
      match FindFrom(s, "\n", open + 3)
      case None => Unclosed(open)
      case Some(tagEnd) =>
        match FindFrom(s, FENCE, tagEnd + 1)
        case None => Unclosed(open)
        case Some(close) => Closed(open, tagEnd, close)
  }

  function Scan(s: string, ix: nat): Doc
    requires ix <= |s|
    decreases |s| - ix
  {
    match NextBlock(s, ix)
    case Nothing => End(s[ix..], "")
    case Unclosed(open) => End(s[ix..open], s[open..])
    case Closed(open, tagEnd, close) =>
      Fenced(s[ix..open], s[open + 3..tagEnd], s[tagEnd + 1..close], Scan(s, close + 3))
  }

  function Print(d: Doc): string {
    match d
    case End(prose, tail) => prose + tail
    case Fenced(prose, tag, body, rest) => prose + PrintBlock(tag, body, Print(rest))
  }

  function PrintBlock(tag: string, body: string, after: string): string {
    FENCE + (tag + ("\n" + (body + (FENCE + after))))
  }

  /** Can stand before a fence: the fence after it is the first one. */
  predicate Clean(s: string) {
    FindFrom(s, FENCE, 0).None? && (s == "" || s[|s| - 1] != '`')
  }

  predicate NeverClosed(s: string) {
    OccursAt(s, FENCE, 0) &&
    match FindFrom(s, "\n", 3)
    case None => true
    case Some(tagEnd) => FindFrom(s, FENCE, tagEnd + 1).None?
  }

  predicate WellFormed(d: Doc) {
    match d
    case End(prose, tail) =>
      if tail == "" then FindFrom(prose, FENCE, 0).None? else Clean(prose) && NeverClosed(tail)
    case Fenced(prose, tag, body, rest) =>
      Clean(prose) && FindFrom(tag, "\n", 0).None? && Clean(body) && WellFormed(rest)
  }

  // What the two readers of a text report.

  function TagOf(tag: string): Option<string> {
    if Trim(tag) == "" then None else Some(Trim(tag))
  }

  function Blocks(d: Doc): seq<CodeBlock> {
    match d
    case End(_, _) => []
    case Fenced(_, tag, body, rest) =>
      if Trim(body) == "" then Blocks(rest) else [CodeBlock(TagOf(tag), Trim(body))] + Blocks(rest)
  }

  function Prose(d: Doc): string {
    match d
    case End(prose, _) => prose
    case Fenced(prose, _, _, rest) => prose + Prose(rest)
  }

  // A text is the print of what is read from it.

  lemma {:induction false} PrintOfScan(s: string, ix: nat)
    requires ix <= |s|
    ensures Print(Scan(s, ix)) == s[ix..]
    decreases |s| - ix
  {
    hide FindFrom, OccursAt, PrintBlock;
    match NextBlock(s, ix)
    case Nothing =>
      assert s[ix..] + "" == s[ix..];
    case Unclosed(open) =>
      Cut(s, ix, open);
    case Closed(open, tagEnd, close) =>
      PrintOfScan(s, close + 3);
      FindFromIsFirst(s, FENCE, ix);
      FindFromIsFirst(s, "\n", open + 3);
      FindFromIsFirst(s, FENCE, tagEnd + 1);
      BlockPieces(s, open, tagEnd, close);
      Cut(s, ix, open);
  }

  lemma {:induction false} BlockPieces(s: string, open: nat, tagEnd: nat, close: nat)
    requires open + 3 <= tagEnd && tagEnd + 1 <= close && close + 3 <= |s|
    requires OccursAt(s, FENCE, open) && OccursAt(s, "\n", tagEnd) && OccursAt(s, FENCE, close)
    ensures PrintBlock(s[open + 3..tagEnd], s[tagEnd + 1..close], s[close + 3..]) == s[open..]
  {
    hide OccursAt;
    OccursAsSlice(s, FENCE, open);
    OccursAsSlice(s, "\n", tagEnd);
    OccursAsSlice(s, FENCE, close);
    Cut(s, close, close + 3);
    Cut(s, tagEnd + 1, close);
    Cut(s, tagEnd, tagEnd + 1);
    Cut(s, open + 3, tagEnd);
    Cut(s, open, open + 3);
  }

  lemma {:induction false} Cut(s: string, i: nat, j: nat)
    requires i <= j <= |s|
    ensures s[i..] == s[i..j] + s[j..]
  {
  }

  // What is read from a printed document is the document, exactly if it is well formed.

  lemma {:induction false} FenceAt(s: string, j: nat)
    ensures OccursAt(s, FENCE, j) <==> j + 3 <= |s| && s[j] == '`' && s[j + 1] == '`' && s[j + 2] == '`'
  {
    OccursAsSlice(s, FENCE, j);
    if j + 3 <= |s| {
      var t := s[j..j + 3];
      assert t[0] == s[j] && t[1] == s[j + 1] && t[2] == s[j + 2];
      assert t == [t[0], t[1], t[2]];
    }
  }

  lemma {:induction false} NewlineAt(s: string, j: nat)
    ensures OccursAt(s, "\n", j) <==> j < |s| && s[j] == '\n'
  {
    OccursAsSlice(s, "\n", j);
    if j < |s| {
      assert s[j..j + 1] == [s[j]];
    }
  }

  /** A clean text ends at the fence that follows it. */
  lemma {:induction false} CleanEnds(s: string, t: string)
    requires Clean(s) && OccursAt(t, FENCE, 0)
    ensures FindFrom(s + t, FENCE, 0) == Some(|s|)
  {
    OccursShift(s, t, FENCE, 0);
    FindFromIsFirst(s, FENCE, 0);
    forall j | 0 <= j < |s| ensures !OccursAt(s + t, FENCE, j) {
      FenceAt(s + t, j);
      FenceAt(s, j);
      if j + 3 > |s| {
        assert (s + t)[|s| - 1] == s[|s| - 1];
      }
    }
    FindFromIs(s + t, FENCE, 0, |s|);
  }

  /** The text before a first fence is clean. */
  lemma {:induction false} BeforeFenceIsClean(s: string, ix: nat, open: nat)
    requires ix <= |s| && FindFrom(s, FENCE, ix) == Some(open)
    ensures Clean(s[ix..open])
  {
    var p := s[ix..open];
    FindFromIsFirst(s, FENCE, ix);
    FindFromIsFirst(p, FENCE, 0);
    if FindFrom(p, FENCE, 0).Some? {
      var j := FindFrom(p, FENCE, 0).value;
      FenceAt(p, j);
      FenceAt(s, ix + j);
    }
    if ix < open {
      FenceAt(s, open);
      FenceAt(s, open - 1);
    }
  }

  lemma {:induction false} LineEnds(tag: string, rest: string)
    requires FindFrom(tag, "\n", 0).None?
    ensures FindFrom(tag + ("\n" + rest), "\n", 0) == Some(|tag|)
  {
    var s := tag + ("\n" + rest);
    FindFromIsFirst(tag, "\n", 0);
    NewlineAt(s, |tag|);
    forall j | 0 <= j < |tag| ensures !OccursAt(s, "\n", j) {
      NewlineAt(s, j);
      NewlineAt(tag, j);
    }
    FindFromIs(s, "\n", 0, |tag|);
  }

  lemma {:induction false} OccursInSlice(s: string, pattern: string, i: nat, j: nat, k: nat)
    requires i <= j <= |s| && i + k + |pattern| <= j
    ensures OccursAt(s[i..j], pattern, k) <==> OccursAt(s, pattern, i + k)
  {
    var t := s[i..j];
    OccursAsSlice(t, pattern, k);
    OccursAsSlice(s, pattern, i + k);
    assert forall d :: k <= d < k + |pattern| ==> t[d] == s[i + d];
    assert t[k..k + |pattern|] == s[i + k..i + k + |pattern|];
  }

  lemma {:induction false} NoneInSlice(s: string, pattern: string, i: nat, j: nat)
    requires i <= j <= |s| && pattern != ""
    requires forall k :: i <= k < j ==> !OccursAt(s, pattern, k)
    ensures FindFrom(s[i..j], pattern, 0).None?
  {
    var t := s[i..j];
    forall k: nat ensures !OccursAt(t, pattern, k) {
      if k + |pattern| <= |t| {
        OccursInSlice(s, pattern, i, j, k);
      }
    }
    FindFromIsFirst(t, pattern, 0);
  }

  lemma {:induction false} BlockIsFound(tag: string, body: string, after: string)
    requires FindFrom(tag, "\n", 0).None? && Clean(body)
    ensures NextBlock(PrintBlock(tag, body, after), 0) == Closed(0, 3 + |tag|, 4 + |tag| + |body|)
    ensures OccursAt(PrintBlock(tag, body, after), FENCE, 0)
  {
    hide FindFrom, OccursAt, Clean;
    var w := body + (FENCE + after);
    var v := tag + ("\n" + w);
    StartsWithFence(v);
    FindFromIs(FENCE + v, FENCE, 0, 0);
    LineEnds(tag, w);
    FindShift(FENCE, v, "\n", 0);
    BodyIsFound(FENCE, tag, "\n", body, after);
  }

  lemma {:induction false} BodyIsFound(a: string, b: string, c: string, body: string, after: string)
    requires Clean(body)
    ensures FindFrom(a + (b + (c + (body + (FENCE + after)))), FENCE, |a| + |b| + |c|)
         == Some(|a| + |b| + |c| + |body|)
  {
    hide FindFrom, OccursAt, Clean;
    StartsWithFence(after);
    CleanEnds(body, FENCE + after);
    var w := body + (FENCE + after);
    ConcatAssoc(b, c, w);
    ConcatAssoc(a, b + c, w);
    FindShift(a + (b + c), w, FENCE, 0);
  }

  lemma {:induction false} StartsWithFence(t: string)
    ensures OccursAt(FENCE + t, FENCE, 0)
  {
    FenceAt(FENCE + t, 0);
  }

  function Moved(n: Next, offset: nat): Next {
    match n
    case Nothing => Nothing
    case Unclosed(open) => Unclosed(offset + open)
    case Closed(open, tagEnd, close) => Closed(offset + open, offset + tagEnd, offset + close)
  }

  lemma {:induction false} NextShift(a: string, b: string, i: nat)
    requires i <= |b|
    ensures NextBlock(a + b, |a| + i) == Moved(NextBlock(b, i), |a|)
  {
    hide FindFrom, OccursAt;
    FindShift(a, b, FENCE, i);
    if FindFrom(b, FENCE, i).Some? {
      var open := FindFrom(b, FENCE, i).value;
      FindShift(a, b, "\n", open + 3);
      if FindFrom(b, "\n", open + 3).Some? {
        FindShift(a, b, FENCE, FindFrom(b, "\n", open + 3).value + 1);
      }
    }
  }

  lemma {:induction false} ShiftedSlice(a: string, b: string, i: nat, j: nat)
    requires i <= j <= |b|
    ensures (a + b)[|a| + i..|a| + j] == b[i..j]
    ensures (a + b)[|a| + i..] == b[i..]
  {
  }

  /** One step of the scan. */
  lemma {:induction false} ScanIs(s: string, ix: nat)
    requires ix <= |s|
    ensures Scan(s, ix) ==
            match NextBlock(s, ix)
            case Nothing => End(s[ix..], "")
            case Unclosed(open) => End(s[ix..open], s[open..])
            case Closed(open, tagEnd, close) =>
              Fenced(s[ix..open], s[open + 3..tagEnd], s[tagEnd + 1..close], Scan(s, close + 3))
  {
    hide FindFrom, OccursAt, NextBlock;
  }

  lemma {:induction false} ScanShift(a: string, b: string, i: nat)
    requires i <= |b|
    ensures Scan(a + b, |a| + i) == Scan(b, i)
    decreases |b| - i
  {
    hide FindFrom, OccursAt, NextBlock, Scan;
    NextShift(a, b, i);
    PiecesShift(a, b, i, NextBlock(b, i));
    ScanIs(a + b, |a| + i);
    ScanIs(b, i);
    if NextBlock(b, i).Closed? {
      ScanShift(a, b, NextBlock(b, i).close + 3);
    }
  }

  /** The pieces cut out around a block do not depend on what is before. */
  lemma {:induction false} PiecesShift(a: string, b: string, i: nat, n: Next)
    requires i <= |b| && NextBlock(b, i) == n
    ensures match n
            case Nothing => (a + b)[|a| + i..] == b[i..]
            case Unclosed(open) => (a + b)[|a| + i..|a| + open] == b[i..open] && (a + b)[|a| + open..] == b[open..]
            case Closed(open, tagEnd, close) =>
              && (a + b)[|a| + i..|a| + open] == b[i..open]
              && (a + b)[|a| + open + 3..|a| + tagEnd] == b[open + 3..tagEnd]
              && (a + b)[|a| + tagEnd + 1..|a| + close] == b[tagEnd + 1..close]
  {
    hide FindFrom, OccursAt, NextBlock;
    match n
    case Nothing =>
      ShiftedSlice(a, b, i, i);
    case Unclosed(open) =>
      ShiftedSlice(a, b, i, open);
      ShiftedSlice(a, b, open, open);
    case Closed(open, tagEnd, close) =>
      ShiftedSlice(a, b, i, open);
      ShiftedSlice(a, b, open + 3, tagEnd);
      ShiftedSlice(a, b, tagEnd + 1, close);
  }

  /** The next block of clean prose and something that starts with a fence is the next block of the latter. */
  lemma {:induction false} NextAfterProse(p: string, u: string)
    requires Clean(p) && OccursAt(u, FENCE, 0)
    ensures NextBlock(p + u, 0) == Moved(NextBlock(u, 0), |p|)
  {
    hide FindFrom, OccursAt;
    CleanEnds(p, u);
    FindFromIs(u, FENCE, 0, 0);
    FindShift(p, u, "\n", 3);
    if FindFrom(u, "\n", 3).Some? {
      FindShift(p, u, FENCE, FindFrom(u, "\n", 3).value + 1);
    }
  }

  lemma {:induction false} ScanOfPrint(d: Doc)
    requires WellFormed(d)
    ensures Scan(Print(d), 0) == d
  {
    hide OccursAt, PrintBlock;
    match d
    case End(p, t) =>
      ScanOfEnd(p, t);
    case Fenced(p, tag, body, rest) =>
      ScanOfPrint(rest);
      ScanOfBlock(p, tag, body, Print(rest));
  }

  lemma {:induction false} ScanOfEnd(p: string, t: string)
    requires WellFormed(End(p, t))
    ensures Scan(p + t, 0) == End(p, t)
  {
    hide FindFrom, OccursAt;
    if t == "" {
      assert p + t == p && p[0..] == p;
    } else {
      FindFromIs(t, FENCE, 0, 0);
      NextAfterProse(p, t);
      assert (p + t)[0..|p|] == p && (p + t)[|p|..] == t;
    }
  }

  lemma {:induction false} ScanOfBlock(p: string, tag: string, body: string, after: string)
    requires Clean(p) && FindFrom(tag, "\n", 0).None? && Clean(body)
    ensures Scan(p + PrintBlock(tag, body, after), 0) == Fenced(p, tag, body, Scan(after, 0))
  {
    hide FindFrom, OccursAt, NextBlock, PrintBlock, Clean;
    var u := PrintBlock(tag, body, after);
    BlockIsFound(tag, body, after);
    NextAfterProse(p, u);
    Pieces(p, tag, body, after);
    var s := p + u;
    var head := s[..|p| + 7 + |tag| + |body|];
    ScanShift(head, after, 0);
  }

  lemma {:induction false} Pieces(p: string, tag: string, body: string, after: string)
    ensures var s := p + PrintBlock(tag, body, after);
            var t, c := |p| + 3 + |tag|, |p| + 4 + |tag| + |body|;
            && |s| == c + 3 + |after|
            && s[0..|p|] == p && s[|p| + 3..t] == tag && s[t + 1..c] == body && s == s[..c + 3] + after
  {
    var s := p + PrintBlock(tag, body, after);
    var c := |p| + 4 + |tag| + |body|;
    assert s[c + 3..] == after;
  }

  lemma {:induction false} UnclosedIsNeverClosed(s: string, ix: nat, open: nat)
    requires ix <= |s| && NextBlock(s, ix) == Unclosed(open)
    ensures NeverClosed(s[open..])
  {
    hide FindFrom, OccursAt;
    var head, t := s[..open], s[open..];
    assert s == head + t;
    FindFromIsFirst(s, FENCE, ix);
    OccursShift(head, t, FENCE, 0);
    FindShift(head, t, "\n", 3);
    if FindFrom(t, "\n", 3).Some? {
      FindShift(head, t, FENCE, FindFrom(t, "\n", 3).value + 1);
    }
  }

  lemma {:induction false} ClosedIsWellFormed(s: string, ix: nat, open: nat, tagEnd: nat, close: nat)
    requires ix <= |s| && NextBlock(s, ix) == Closed(open, tagEnd, close)
    ensures Clean(s[ix..open]) && FindFrom(s[open + 3..tagEnd], "\n", 0).None? && Clean(s[tagEnd + 1..close])
  {
    hide FindFrom, OccursAt, Clean;
    BeforeFenceIsClean(s, ix, open);
    FindFromIsFirst(s, "\n", open + 3);
    NoneInSlice(s, "\n", open + 3, tagEnd);
    BeforeFenceIsClean(s, tagEnd + 1, close);
  }

  lemma {:induction false} ScanIsWellFormed(s: string, ix: nat)
    requires ix <= |s|
    ensures WellFormed(Scan(s, ix))
    decreases |s| - ix
  {
    hide FindFrom, OccursAt, Clean, NeverClosed;
    FindFromIsFirst(s, FENCE, ix);
    match NextBlock(s, ix)
    case Nothing =>
      NoneInSlice(s, FENCE, ix, |s|);
      assert s[ix..|s|] == s[ix..];
    case Unclosed(open) =>
      BeforeFenceIsClean(s, ix, open);
      UnclosedIsNeverClosed(s, ix, open);
    case Closed(open, tagEnd, close) =>
      ClosedIsWellFormed(s, ix, open, tagEnd, close);
      ScanIsWellFormed(s, close + 3);
  }

  /** Reading and printing are inverse to each other on the well-formed documents, and only there. */
  lemma {:induction false} ReadsBackExactly(d: Doc)
    ensures Scan(Print(d), 0) == d <==> WellFormed(d)
  {
    ScanIsWellFormed(Print(d), 0);
    if WellFormed(d) {
      ScanOfPrint(d);
    }
  }

  /** Prose and bodies without backticks, tags on one line. */
  predicate Plain(d: Doc) {
    match d
    case End(prose, tail) => '`' !in prose && tail == ""
    case Fenced(prose, tag, body, rest) => '`' !in prose && '\n' !in tag && '`' !in body && Plain(rest)
  }

  lemma {:induction false} WithoutBackticks(s: string)
    requires '`' !in s
    ensures Clean(s)
  {
    FindFromIsFirst(s, FENCE, 0);
    if FindFrom(s, FENCE, 0).Some? {
      FenceAt(s, FindFrom(s, FENCE, 0).value);
    }
  }

  lemma {:induction false} WithoutNewline(s: string)
    requires '\n' !in s
    ensures FindFrom(s, "\n", 0).None?
  {
    FindFromIsFirst(s, "\n", 0);
    if FindFrom(s, "\n", 0).Some? {
      NewlineAt(s, FindFrom(s, "\n", 0).value);
    }
  }

  lemma {:induction false} PlainIsWellFormed(d: Doc)
    requires Plain(d)
    ensures WellFormed(d)
  {
    WithoutBackticks(d.prose);
    if d.Fenced? {
      WithoutBackticks(d.body);
      WithoutNewline(d.tag);
      PlainIsWellFormed(d.rest);
    }
  }

  /** The readers find in a printed plain document its trimmed tags and bodies, and its prose. */
  lemma {:induction false} PlainIsReadBack(d: Doc)
    requires Plain(d)
    ensures Blocks(Scan(Print(d), 0)) == Blocks(d)
    ensures Prose(Scan(Print(d), 0)) == Prose(d)
  {
    PlainIsWellFormed(d);
    ScanOfPrint(d);
  }

  /** What the readers report of a text that begins with a closed block: a block whose body is not blank, with the
      trimmed tag as its language if that is not blank; the prose before it; and then what they report of the rest. */
  lemma {:induction false} FirstBlockIsReported(prose: string, tag: string, body: string, after: string)
    requires Clean(prose) && FindFrom(tag, "\n", 0).None? && Clean(body)
    ensures var text := prose + ("```" + (tag + ("\n" + (body + ("```" + after)))));
            && Blocks(Scan(text, 0))
               == (if Trim(body) == "" then []
                   else [CodeBlock(if Trim(tag) == "" then None else Some(Trim(tag)), Trim(body))])
                  + Blocks(Scan(after, 0))
            && Prose(Scan(text, 0)) == prose + Prose(Scan(after, 0))
  {
    hide Scan, Clean, FindFrom, Trim;
    var d := Fenced(prose, tag, body, Scan(after, 0));
    PrintOfScan(after, 0);
    assert after[0..] == after;
    ScanIsWellFormed(after, 0);
    ScanOfPrint(d);
  }

  /** Of a text that does not, they report no block, and as prose what comes before a fence that is never closed. */
  lemma {:induction false} NoBlockIsReported(prose: string, tail: string)
    requires if tail == "" then FindFrom(prose, "```", 0).None? else Clean(prose) && NeverClosed(tail)
    ensures Blocks(Scan(prose + tail, 0)) == [] && Prose(Scan(prose + tail, 0)) == prose
  {
    hide Scan, Clean, FindFrom, NeverClosed;
    ScanOfPrint(End(prose, tail));
  }

  /** The readers' early return for a blank text changes nothing. */
  lemma {:induction false} BlankHasNoBlocks(text: string)
    requires Trim(text) == ""
    ensures Blocks(Scan(text, 0)) == [] && Trim(Prose(Scan(text, 0))) == ""
  {
    BlankIsWhite(text);
    WithoutBackticks(text);
    assert text[0..] == text;
  }

  /** The readers' search for the end of the tag. */
  method LineEnd(text: string, start: nat) returns (end: nat)
    requires start <= |text|
    ensures start <= end <= |text|
    ensures FindFrom(text, "\n", start) == if end < |text| then Some(end) else None
  {
    end := start;
    while end < |text|
      invariant start <= end <= |text|
      invariant FindFrom(text, "\n", start) == FindFrom(text, "\n", end)
    {
      NewlineAt(text, end);
      if text[end] == '\n' {
        break;
      }
      end := end + 1;
    }
  }

  lemma {:induction false} NothingAtTheEnd(text: string)
    ensures NextBlock(text, |text|) == Nothing && Scan(text, |text|) == End("", "")
  {
    FindFromIsFirst(text, FENCE, |text|);
  }

  /** The blocks found before `ix` and those still to be found are all blocks. */
  ghost predicate BlocksUpTo(text: string, ix: nat, blocks: seq<CodeBlock>) {
    ix <= |text| && blocks + Blocks(Scan(text, ix)) == Blocks(Scan(text, 0))
  }

  /** The block a fence stands for: none if the body is blank. */
  function Pushed(tag: string, body: string): seq<CodeBlock> {
    if Trim(body) == "" then [] else [CodeBlock(TagOf(tag), Trim(body))]
  }

  lemma {:induction false} BlockPushed(
      text: string, ix: nat, blocks: seq<CodeBlock>, open: nat, tagEnd: nat, close: nat)
    requires BlocksUpTo(text, ix, blocks) && NextBlock(text, ix) == Closed(open, tagEnd, close)
    ensures BlocksUpTo(text, close + 3, blocks + Pushed(text[open + 3..tagEnd], text[tagEnd + 1..close]))
  {
    hide NextBlock, Trim;
    var rest := Blocks(Scan(text, close + 3));
    var pushed := Pushed(text[open + 3..tagEnd], text[tagEnd + 1..close]);
    assert Blocks(Scan(text, ix)) == pushed + rest;
    assert blocks + (pushed + rest) == (blocks + pushed) + rest;
  }

  lemma {:induction false} BlocksDone(text: string, ix: nat, blocks: seq<CodeBlock>)
    requires BlocksUpTo(text, ix, blocks) && !NextBlock(text, ix).Closed?
    ensures blocks == Blocks(Scan(text, 0))
  {
    hide NextBlock;
    assert Blocks(Scan(text, ix)) == [];
  }

  method ExtractFencedCodeBlocks(text: string) returns (blocks: seq<CodeBlock>)
    ensures blocks == Blocks(Scan(text, 0))
  {
    hide FindFrom, Scan, Trim, Blocks, BlocksUpTo;
    blocks := [];
    if Trim(text) == "" {
      BlankHasNoBlocks(text);
      return;
    }
    var ix: nat := 0;
    assert BlocksUpTo(text, ix, blocks) by {
      BlocksAtStart(text);
    }
    while ix < |text|
      invariant ix <= |text|
      invariant BlocksUpTo(text, ix, blocks)
      decreases |text| - ix
    {
      var found := FindFrom(text, FENCE, ix);
      if found.None? {
        break;
      }
      var open := found.value;
      var tagEnd := LineEnd(text, open + 3);
      if tagEnd >= |text| {
        break;
      }
      var lang := TagOf(text[open + 3..tagEnd]);
      var bodyStart := tagEnd + 1;
      var foundClose := FindFrom(text, FENCE, bodyStart);
      if foundClose.None? {
        break;
      }
      var close := foundClose.value;
      var body := Trim(text[bodyStart..close]);
      BlockPushed(text, ix, blocks, open, tagEnd, close);
      if body != "" {
        blocks := blocks + [CodeBlock(lang, body)];
      } else {
        assert blocks + [] == blocks;
      }
      ix := close + 3;
    }
    NothingAtTheEnd(text);
    BlocksDone(text, ix, blocks);
  }

  lemma {:induction false} BlocksAtStart(text: string)
    ensures BlocksUpTo(text, 0, [])
  {
  }

  /** The prose put out before `ix` and that still to come is all prose. */
  ghost predicate ProseUpTo(text: string, ix: nat, out: string) {
    ix <= |text| && out + Prose(Scan(text, ix)) == Prose(Scan(text, 0))
  }

  lemma {:induction false} ProseAtStart(text: string)
    ensures ProseUpTo(text, 0, "")
  {
  }

  lemma {:induction false} ProsePushed(text: string, ix: nat, out: string)
    requires ProseUpTo(text, ix, out)
    ensures match NextBlock(text, ix)
            case Nothing => out + text[ix..] == Prose(Scan(text, 0))
            case Unclosed(open) => out + text[ix..open] == Prose(Scan(text, 0))
            case Closed(open, _, close) => ProseUpTo(text, close + 3, out + text[ix..open])
  {
    hide NextBlock;
    match NextBlock(text, ix)
    case Nothing =>
    case Unclosed(open) =>
    case Closed(open, tagEnd, close) =>
      var rest := Prose(Scan(text, close + 3));
      assert Prose(Scan(text, ix)) == text[ix..open] + rest;
      assert out + (text[ix..open] + rest) == (out + text[ix..open]) + rest;
  }

  lemma {:induction false} ProseDone(text: string, out: string)
    requires ProseUpTo(text, |text|, out)
    ensures out == Prose(Scan(text, 0))
  {
    NothingAtTheEnd(text);
    assert out + "" == out;
  }

  method StripFencedCodeBlocks(text: string) returns (result: string)
    ensures result == Trim(Prose(Scan(text, 0)))
  {
    hide FindFrom, Scan, Trim, Prose, ProseUpTo;
    if Trim(text) == "" {
      BlankHasNoBlocks(text);
      return "";
    }
    var out := "";
    var ix: nat := 0;
    ProseAtStart(text);
    ghost var all := Prose(Scan(text, 0));
    while ix < |text|
      invariant ix <= |text|
      invariant ProseUpTo(text, ix, out)
      decreases |text| - ix
    {
      ProsePushed(text, ix, out);
      var found := FindFrom(text, FENCE, ix);
      if found.None? {
        out := out + text[ix..];
        assert out == all;
        break;
      }
      var open := found.value;
      out := out + text[ix..open];
      var tagEnd := LineEnd(text, open + 3);
      if tagEnd >= |text| {
        assert out == all;
        break;
      }
      var bodyStart := tagEnd + 1;
      var foundClose := FindFrom(text, FENCE, bodyStart);
      if foundClose.None? {
        assert out == all;
        break;
      }
      ix := foundClose.value + 3;
    }
    if ix == |text| {
      ProseDone(text, out);
    }
    result := Trim(out);
  }
}

/** Removal of the fish shell's newline probes from recorded output.

    A probe is a fixed prefix, one or more spaces, and a fixed suffix.  The removal is proved right for any
    pair of marks whose prefix does not overlap itself and whose suffix does not start with a space. */
module FishProbe {
  import opened Text
  import opened Wrappers

  datatype Marks = Marks(prefix: string, suffix: string) {
    ghost predicate Valid() {
      && prefix != ""
      && suffix != "" && suffix[0] != ' '
      && StandsAlone(prefix)
    }
  }

  /** A place where the text differs from itself moved by d. */
  function Mismatch(p: string, d: nat): (x: Option<nat>)
    ensures x.Some? ==> d + x.value < |p| && p[d + x.value] != p[x.value]
    ensures x.None? ==> forall y :: 0 <= y && d + y < |p| ==> p[d + y] == p[y]
  {
    MismatchFrom(p, d, 0)
  }

  function MismatchFrom(p: string, d: nat, i: nat): (x: Option<nat>)
    ensures x.Some? ==> d + x.value < |p| && p[d + x.value] != p[x.value]
    ensures x.None? ==> forall y :: i <= y && d + y < |p| ==> p[d + y] == p[y]
    decreases |p| - i
  {
    if d + i >= |p| then None
    else if p[d + i] != p[i] then Some(i)
    else MismatchFrom(p, d, i + 1)
  }

  /** No proper end of the text is also a beginning of it. */
  ghost predicate StandsAlone(p: string) {
    forall d :: 0 < d < |p| ==> Mismatch(p, d).Some?
  }

  const FISH := Marks("\U{1B}[2m\U{23CE}\U{1B}[m", "\r\U{23CE} \r\U{1B}[K")

  lemma {:induction false} FishMarksAreValid()
    ensures FISH.Valid()
  {
    var p := FISH.prefix;
    forall d | 0 < d < |p| ensures Mismatch(p, d).Some? {
      if d == 5 {
        assert p[d + 2] != p[2];
      } else {
        assert p[d + 0] != p[0];
      }
    }
  }

  function Spaces(n: nat): (s: string)
    ensures |s| == n && forall i :: 0 <= i < n ==> s[i] == ' '
  {
    seq(n, _ => ' ')
  }

  /** s[i..e] is one probe. */
  ghost predicate IsProbe(m: Marks, s: string, i: nat, e: nat) {
    i <= e <= |s| && exists n: nat :: n >= 1 && s[i..e] == m.prefix + Spaces(n) + m.suffix
  }

  /** The first position from `i` on that is not a space. */
  function SkipSpaces(s: string, i: nat): (j: nat)
    requires i <= |s|
    ensures i <= j <= |s|
    decreases |s| - i
  {
    if i < |s| && s[i] == ' ' then SkipSpaces(s, i + 1) else i
  }

  lemma {:induction false} SkipSpacesStops(s: string, i: nat)
    requires i <= |s|
    ensures var j := SkipSpaces(s, i); AllSpaces(s, i, j) && (j < |s| ==> s[j] != ' ')
    decreases |s| - i
  {
    if i < |s| && s[i] == ' ' {
      SkipSpacesStops(s, i + 1);
    }
  }

  lemma {:induction false} SkipSpacesIs(s: string, i: nat, j: nat)
    requires i <= j < |s| && s[j] != ' ' && AllSpaces(s, i, j)
    ensures SkipSpaces(s, i) == j
    decreases j - i
  {
    if i < j {
      SkipSpacesIs(s, i + 1, j);
    }
  }

  predicate AllSpaces(s: string, i: nat, j: nat)
    requires i <= j <= |s|
    decreases j - i
  {
    i == j || (s[i] == ' ' && AllSpaces(s, i + 1, j))
  }

  lemma {:induction false} AllSpacesIff(s: string, i: nat, j: nat)
    requires i <= j <= |s|
    ensures AllSpaces(s, i, j) <==> s[i..j] == Spaces(j - i)
    decreases j - i
  {
    if i < j {
      AllSpacesIff(s, i + 1, j);
      assert s[i..j] == [s[i]] + s[i + 1..j];
      assert Spaces(j - i) == [' '] + Spaces(j - i - 1);
    }
  }

  /** Where the probe that starts at i ends, if one does. */
  function ProbeEnd(m: Marks, s: string, i: nat): (e: Option<nat>)
    ensures e.Some? ==> i <= e.value <= |s| && (m.prefix != "" ==> i < e.value)
  {
    if !OccursAt(s, m.prefix, i) then None
    else
      var padding := i + |m.prefix|;
      var j := SkipSpaces(s, padding);
      if j > padding && OccursAt(s, m.suffix, j) then Some(j + |m.suffix|) else None
  }

  lemma {:induction false} FoundIsProbe(m: Marks, s: string, i: nat)
    requires m.Valid() && ProbeEnd(m, s, i).Some?
    ensures IsProbe(m, s, i, ProbeEnd(m, s, i).value)
  {
    var e := ProbeEnd(m, s, i).value;
    var padding := i + |m.prefix|;
    var j := SkipSpaces(s, padding);
    SkipSpacesStops(s, padding);
    AllSpacesIff(s, padding, j);
    OccursAsSlice(s, m.prefix, i);
    OccursAsSlice(s, m.suffix, j);
    ThreeSlices(s, i, padding, j, e);
    assert s[i..e] == m.prefix + Spaces(j - padding) + m.suffix;
  }

  lemma {:induction false} ThreeSlices(s: string, i: nat, j: nat, k: nat, e: nat)
    requires i <= j <= k <= e <= |s|
    ensures s[i..e] == s[i..j] + s[j..k] + s[k..e]
  {
  }

  lemma {:induction false} ProbeIsFound(m: Marks, s: string, i: nat, e: nat, n: nat)
    requires m.Valid() && i <= e <= |s| && n >= 1 && s[i..e] == m.prefix + Spaces(n) + m.suffix
    ensures ProbeEnd(m, s, i) == Some(e)
  {
    SliceOfThree(s, i, e, m.prefix, Spaces(n), m.suffix);
    var padding := i + |m.prefix|;
    var j := padding + n;
    AllSpacesIff(s, padding, j);
    OccursAsSlice(s, m.prefix, i);
    OccursAsSlice(s, m.suffix, j);
    OccursAtIndex(s, m.suffix, j, 0);
    SkipSpacesIs(s, padding, j);
  }

  /** At most one probe starts at a position, and ProbeEnd finds it. */
  lemma {:induction false} ProbeEndIsExact(m: Marks, s: string, i: nat, e: nat)
    requires m.Valid()
    ensures ProbeEnd(m, s, i) == Some(e) <==> IsProbe(m, s, i, e)
  {
    if ProbeEnd(m, s, i).Some? {
      FoundIsProbe(m, s, i);
    }
    if IsProbe(m, s, i, e) {
      var n: nat :| n >= 1 && s[i..e] == m.prefix + Spaces(n) + m.suffix;
      ProbeIsFound(m, s, i, e, n);
    }
  }

  lemma {:induction false} SliceOfThree(s: string, i: nat, e: nat, a: string, b: string, c: string)
    requires i <= e <= |s| && s[i..e] == a + b + c
    ensures e == i + |a| + |b| + |c|
    ensures s[i..i + |a|] == a
    ensures s[i + |a|..i + |a| + |b|] == b
    ensures s[i + |a| + |b|..e] == c
  {
    var t := s[i..e];
    assert forall k :: i <= k < e ==> s[k] == t[k - i];
    assert s[i..i + |a|] == t[..|a|];
    assert t[..|a|] == a;
    assert s[i + |a|..i + |a| + |b|] == t[|a|..|a| + |b|];
    assert t[|a|..|a| + |b|] == b;
    assert s[i + |a| + |b|..e] == t[|a| + |b|..];
    assert t[|a| + |b|..] == c;
  }

  /** The plain scanner, with what it has put out so far: from left to right, drop a probe where one starts,
      copy the character otherwise. */
  function Stripped(m: Marks, s: string, i: nat, out: string): string
    requires m.prefix != ""
    decreases |s| - i
  {
    if i >= |s| then out
    else if ProbeEnd(m, s, i).Some? then Stripped(m, s, ProbeEnd(m, s, i).value, out)
    else Stripped(m, s, i + 1, out + [s[i]])
  }

  /** Where no probe starts, the scanner copies. */
  lemma {:induction false} CopiesUpTo(m: Marks, s: string, i: nat, j: nat, out: string)
    requires m.prefix != "" && i <= j <= |s|
    requires forall k :: i <= k < j ==> ProbeEnd(m, s, k).None?
    ensures Stripped(m, s, i, out) == Stripped(m, s, j, out + s[i..j])
    decreases j - i
  {
    if i == j {
      assert out + s[i..j] == out;
    } else {
      CopiesUpTo(m, s, i + 1, j, out + [s[i]]);
      assert ProbeEnd(m, s, i).None?;
      assert out + [s[i]] + s[i + 1..j] == out + s[i..j];
    }
  }

  lemma {:induction false} StrippingShortens(m: Marks, s: string, i: nat, out: string, k: nat)
    requires m.prefix != "" && i <= k <= |s|
    ensures |Stripped(m, s, i, out)| <= |out| + |s| - i
    ensures k < |s| && ProbeEnd(m, s, k).Some? ==> |Stripped(m, s, i, out)| < |out| + |s| - i
    decreases |s| - i
  {
    if i == |s| {
      assert Stripped(m, s, i, out) == out;
    } else if ProbeEnd(m, s, i).Some? {
      var e := ProbeEnd(m, s, i).value;
      StrippingShortens(m, s, e, out, e);
    } else {
      StrippingShortens(m, s, i + 1, out + [s[i]], if i < k then k else i + 1);
    }
  }

  /** A text is left as it is exactly if it holds no probe. */
  lemma {:induction false} UnchangedIffNoProbe(m: Marks, s: string)
    requires m.Valid()
    ensures Stripped(m, s, 0, "") == s <==> !exists i, e :: IsProbe(m, s, i, e)
  {
    forall i: nat, e: nat ensures ProbeEnd(m, s, i) == Some(e) <==> IsProbe(m, s, i, e) {
      ProbeEndIsExact(m, s, i, e);
    }
    if i: nat, e: nat :| IsProbe(m, s, i, e) {
      assert ProbeEnd(m, s, i) == Some(e);
      StrippingShortens(m, s, 0, "", i);
    } else {
      CopiesUpTo(m, s, 0, |s|, "");
      assert "" + s[0..|s|] == s;
    }
  }

  /** A prefix that does not overlap itself does not start inside another one. */
  lemma {:induction false} NoPrefixInside(m: Marks, s: string, i: nat, k: nat)
    requires m.Valid() && OccursAt(s, m.prefix, i) && i < k < i + |m.prefix|
    ensures !OccursAt(s, m.prefix, k)
  {
    var d := k - i;
    var x := Mismatch(m.prefix, d).value;
    OccursAtIndex(s, m.prefix, i, d + x);
    if OccursAt(s, m.prefix, k) {
      OccursAtIndex(s, m.prefix, k, x);
    }
  }

  lemma {:induction false} AllSpacesUpTo(s: string, i: nat, j: nat, k: nat)
    requires i <= j <= |s| && i <= k < |s|
    requires AllSpaces(s, i, j) && s[k] != ' '
    ensures j <= k
    decreases j - i
  {
    if i < j {
      if i < k {
        AllSpacesUpTo(s, i + 1, j, k);
      }
    }
  }

  /** Where the spaces after a prefix end: not after the next suffix. */
  lemma {:induction false} SpacesEndBy(m: Marks, s: string, padding: nat, end: nat)
    requires m.Valid() && padding <= |s| && FindFrom(s, m.suffix, padding) == Some(end)
    ensures var j := SkipSpaces(s, padding);
            j <= end && (OccursAt(s, m.suffix, j) ==> j == end) && (AllSpaces(s, padding, end) <==> j == end)
  {
    var j := SkipSpaces(s, padding);
    FindFromIsFirst(s, m.suffix, padding);
    OccursAtIndex(s, m.suffix, end, 0);
    SkipSpacesStops(s, padding);
    AllSpacesUpTo(s, padding, j, end);
    if AllSpaces(s, padding, end) {
      SkipSpacesIs(s, padding, end);
    }
  }

  /** The first suffix after a prefix closes a probe exactly if only spaces, and at least one, are in between. */
  lemma {:induction false} FirstSuffixDecides(m: Marks, s: string, i: nat, end: nat)
    requires m.Valid() && OccursAt(s, m.prefix, i) && FindFrom(s, m.suffix, i + |m.prefix|) == Some(end)
    ensures var padding := i + |m.prefix|;
            if end > padding && AllSpaces(s, padding, end)
            then ProbeEnd(m, s, i) == Some(end + |m.suffix|)
            else ProbeEnd(m, s, i).None?
  {
    SpacesEndBy(m, s, i + |m.prefix|, end);
    FindFromIsFirst(s, m.suffix, i + |m.prefix|);
  }

  /** Without a further prefix, or without a suffix after it, there is no further probe. */
  lemma {:induction false} NothingLeft(m: Marks, s: string, i: nat)
    requires m.Valid() && i <= |s|
    requires || FindFrom(s, m.prefix, i).None?
             || FindFrom(s, m.suffix, FindFrom(s, m.prefix, i).value + |m.prefix|).None?
    ensures forall k :: i <= k < |s| ==> ProbeEnd(m, s, k).None?
  {
    FindFromIsFirst(s, m.prefix, i);
    if FindFrom(s, m.prefix, i).Some? {
      FindFromIsFirst(s, m.suffix, FindFrom(s, m.prefix, i).value + |m.prefix|);
    }
  }

  lemma {:induction false} NoProbeBefore(m: Marks, s: string, from: nat, start: nat)
    requires m.Valid() && from <= |s| && FindFrom(s, m.prefix, from) == Some(start)
    ensures forall k :: from <= k < start ==> ProbeEnd(m, s, k).None?
  {
    hide FindFrom, OccursAt;
    FindFromIsFirst(s, m.prefix, from);
  }

  /** A prefix that opens no probe can be jumped over as a whole. */
  lemma {:induction false} NoProbeInside(m: Marks, s: string, from: nat, start: nat)
    requires m.Valid() && from <= |s|
    requires FindFrom(s, m.prefix, from) == Some(start) && ProbeEnd(m, s, start).None?
    ensures forall k :: from <= k < start + |m.prefix| ==> ProbeEnd(m, s, k).None?
  {
    FindFromIsFirst(s, m.prefix, from);
    forall k | from <= k < start + |m.prefix| ensures ProbeEnd(m, s, k).None? {
      if start < k {
        NoPrefixInside(m, s, start, k);
      }
    }
  }

  function Out(output: Option<string>): string {
    if output.Some? then output.value else ""
  }

  function Extended(output: Option<string>, s: string, kept: nat, start: nat): string
    requires kept <= start <= |s|
  {
    Out(output) + s[kept..start]
  }

  function Joined(output: Option<string>, s: string, kept: nat): string
    requires kept <= |s|
  {
    if output.Some? then Extended(output, s, kept, |s|) else s
  }

  /** What holds whenever the search is at `from` and everything before `kept` has been dealt with. */
  ghost predicate Progress(m: Marks, s: string, output: Option<string>, kept: nat, from: nat)
    requires m.prefix != ""
  {
    && kept <= from <= |s|
    && Stripped(m, s, 0, "") == Stripped(m, s, from, Extended(output, s, kept, from))
    && (if output.None? then kept == 0 else |output.value| < kept)
  }

  lemma {:induction false} Copied(m: Marks, s: string, output: Option<string>, kept: nat, from: nat, next: nat)
    requires m.prefix != "" && Progress(m, s, output, kept, from) && next <= |s|
    requires from <= next && forall k :: from <= k < next ==> ProbeEnd(m, s, k).None?
    ensures Progress(m, s, output, kept, next)
  {
    CopiesUpTo(m, s, from, next, Extended(output, s, kept, from));
    assert Extended(output, s, kept, from) + s[from..next] == Extended(output, s, kept, next);
  }

  lemma {:induction false} DropsProbe(
      m: Marks, s: string, output: Option<string>, kept: nat, from: nat, start: nat, end: nat)
    requires m.Valid() && Progress(m, s, output, kept, from) && FindFrom(s, m.prefix, from) == Some(start)
    requires FindFrom(s, m.suffix, start + |m.prefix|) == Some(end)
    requires end > start + |m.prefix| && AllSpaces(s, start + |m.prefix|, end)
    ensures Progress(m, s, Some(Extended(output, s, kept, start)), end + |m.suffix|, end + |m.suffix|)
  {
    hide FindFrom, AllSpaces, OccursAt, ProbeEnd;
    FindFromIsFirst(s, m.prefix, from);
    FirstSuffixDecides(m, s, start, end);
    NoProbeBefore(m, s, from, start);
    Copied(m, s, output, kept, from, start);
    var e := end + |m.suffix|;
    var out := Extended(output, s, kept, start);
    assert Extended(Some(out), s, e, e) == out;
  }

  lemma {:induction false} PassesPrefix(
      m: Marks, s: string, output: Option<string>, kept: nat, from: nat, start: nat, end: nat)
    requires m.Valid() && Progress(m, s, output, kept, from) && FindFrom(s, m.prefix, from) == Some(start)
    requires FindFrom(s, m.suffix, start + |m.prefix|) == Some(end)
    requires !(end > start + |m.prefix| && AllSpaces(s, start + |m.prefix|, end))
    ensures Progress(m, s, output, kept, start + |m.prefix|)
  {
    FindFromIsFirst(s, m.prefix, from);
    FirstSuffixDecides(m, s, start, end);
    NoProbeInside(m, s, from, start);
    Copied(m, s, output, kept, from, start + |m.prefix|);
  }

  /** Stopping at the first missing prefix or suffix is right: there is no further probe. */
  lemma {:induction false} Finishes(m: Marks, s: string, output: Option<string>, kept: nat, from: nat)
    requires m.Valid() && Progress(m, s, output, kept, from)
    requires || FindFrom(s, m.prefix, from).None?
             || FindFrom(s, m.suffix, FindFrom(s, m.prefix, from).value + |m.prefix|).None?
    ensures Joined(output, s, kept) == Stripped(m, s, 0, "")
    ensures output.Some? <==> Joined(output, s, kept) != s
  {
    NothingLeft(m, s, from);
    Copied(m, s, output, kept, from, |s|);
    assert output.None? ==> Extended(output, s, kept, |s|) == s;
    assert output.Some? ==> |Joined(output, s, kept)| < |s|;
  }

  /** Removes all probes.  `owned` tells whether a new text had to be made. */
  method StripProbes(m: Marks, text: string) returns (result: string, owned: bool)
    requires m.Valid()
    ensures result == Stripped(m, text, 0, "")
    ensures owned <==> result != text
  {
    var searchFrom: nat, lastKept: nat := 0, 0;
    var output: Option<string> := None;
    assert Extended(None, text, 0, 0) == "";
    while true
      invariant Progress(m, text, output, lastKept, searchFrom)
      decreases |text| - searchFrom
    {
      var found := FindFrom(text, m.prefix, searchFrom);
      if found.None? {
        break;
      }
      var start := found.value;
      var paddingStart := start + |m.prefix|;
      var foundEnd := FindFrom(text, m.suffix, paddingStart);
      if foundEnd.None? {
        break;
      }
      var end := foundEnd.value;
      if end > paddingStart && AllSpaces(text, paddingStart, end) {
        DropsProbe(m, text, output, lastKept, searchFrom, start, end);
        output := Some(Extended(output, text, lastKept, start));
        searchFrom := end + |m.suffix|;
        lastKept := searchFrom;
      } else {
        PassesPrefix(m, text, output, lastKept, searchFrom, start, end);
        searchFrom := paddingStart;
      }
    }
    Finishes(m, text, output, lastKept, searchFrom);
    owned := output.Some?;
    result := Joined(output, text, lastKept);
  }

  method StripFishNewlineProbes(text: string) returns (result: string, owned: bool)
    ensures result == Stripped(FISH, text, 0, "")
    ensures owned <==> result != text
    ensures owned <==> exists i, e :: IsProbe(FISH, text, i, e)
  {
    FishMarksAreValid();
    UnchangedIffNoProbe(FISH, text);
    result, owned := StripProbes(FISH, text);
  }
}

/** Searching and trimming text; a text is a sequence of code points. */
module Text {
  import opened Wrappers

  predicate OccursAt(s: string, pattern: string, i: nat) {
    i + |pattern| <= |s| && Agrees(s, pattern, i, 0)
  }

  /** The comparison character by character, from the k-th character of the pattern on. */
  predicate Agrees(s: string, pattern: string, i: nat, k: nat)
    requires k <= |pattern| && i + |pattern| <= |s|
    decreases |pattern| - k
  {
    k == |pattern| || (s[i + k] == pattern[k] && Agrees(s, pattern, i, k + 1))
  }

  lemma {:induction false} AgreesAsSlice(s: string, pattern: string, i: nat, k: nat)
    requires k <= |pattern| && i + |pattern| <= |s|
    ensures Agrees(s, pattern, i, k) <==> s[i + k..i + |pattern|] == pattern[k..]
    decreases |pattern| - k
  {
    var slice := s[i + k..i + |pattern|];
    if k < |pattern| {
      AgreesAsSlice(s, pattern, i, k + 1);
      assert slice == [s[i + k]] + s[i + (k + 1)..i + |pattern|];
      assert pattern[k..] == [pattern[k]] + pattern[k + 1..];
      assert slice == pattern[k..] ==> slice[0] == pattern[k..][0] && slice[1..] == pattern[k..][1..];
    }
  }

  lemma {:induction false} OccursAsSlice(s: string, pattern: string, i: nat)
    ensures OccursAt(s, pattern, i) <==> i + |pattern| <= |s| && s[i..i + |pattern|] == pattern
  {
    if i + |pattern| <= |s| {
      AgreesAsSlice(s, pattern, i, 0);
    }
  }

  lemma {:induction false} OccursAtIndex(s: string, pattern: string, i: nat, k: nat)
    requires OccursAt(s, pattern, i) && k < |pattern|
    ensures s[i + k] == pattern[k]
  {
    OccursAsSlice(s, pattern, i);
    assert s[i..i + |pattern|][k] == s[i + k];
  }

  /** The first place from `i` on where a pattern occurs. */
  function FindFrom(s: string, pattern: string, i: nat): (r: Option<nat>)
    requires i <= |s|
    ensures r.Some? ==> i <= r.value && r.value + |pattern| <= |s|
    decreases |s| - i
  {
    if OccursAt(s, pattern, i) then Some(i)
    else if i == |s| then None
    else FindFrom(s, pattern, i + 1)
  }

  lemma {:induction false} FindFromIsFirst(s: string, pattern: string, i: nat)
    requires i <= |s|
    ensures var r := FindFrom(s, pattern, i);
            match r
            case Some(p) => OccursAt(s, pattern, p) && forall j :: i <= j < p ==> !OccursAt(s, pattern, j)
            case None => forall j :: i <= j ==> !OccursAt(s, pattern, j)
    decreases |s| - i
  {
    if !OccursAt(s, pattern, i) && i < |s| {
      FindFromIsFirst(s, pattern, i + 1);
    }
  }

  lemma {:induction false} FindFromIs(s: string, pattern: string, i: nat, p: nat)
    requires i <= p && OccursAt(s, pattern, p) && forall j :: i <= j < p ==> !OccursAt(s, pattern, j)
    ensures FindFrom(s, pattern, i) == Some(p)
    decreases p - i
  {
    if i < p {
      assert !OccursAt(s, pattern, i);
      FindFromIs(s, pattern, i + 1, p);
    }
  }

  lemma {:induction false} OccursShift(a: string, b: string, pattern: string, i: nat)
    ensures OccursAt(a + b, pattern, |a| + i) <==> OccursAt(b, pattern, i)
  {
    OccursAsSlice(a + b, pattern, |a| + i);
    OccursAsSlice(b, pattern, i);
    if i + |pattern| <= |b| {
      assert (a + b)[|a| + i..|a| + i + |pattern|] == b[i..i + |pattern|];
    }
  }

  function Shifted(r: Option<nat>, offset: nat): Option<nat> {
    if r.Some? then Some(offset + r.value) else None
  }

  lemma {:induction false} FindShift(a: string, b: string, pattern: string, i: nat)
    requires i <= |b|
    ensures FindFrom(a + b, pattern, |a| + i) == Shifted(FindFrom(b, pattern, i), |a|)
    decreases |b| - i
  {
    OccursShift(a, b, pattern, i);
    if !OccursAt(b, pattern, i) && i < |b| {
      FindShift(a, b, pattern, i + 1);
    }
  }

  /** The characters trimming removes: the Unicode white space. */
  predicate IsWhitespace(c: char) {
    || '\U{9}' <= c <= '\U{D}' || c == ' ' || c == '\U{85}' || c == '\U{A0}' || c == '\U{1680}'
    || '\U{2000}' <= c <= '\U{200A}' || c == '\U{2028}' || c == '\U{2029}' || c == '\U{202F}'
    || c == '\U{205F}' || c == '\U{3000}'
  }

  function TrimStart(s: string): string {
    if s == "" || !IsWhitespace(s[0]) then s else TrimStart(s[1..])
  }

  function TrimEnd(s: string): string {
    if s == "" || !IsWhitespace(s[|s| - 1]) then s else TrimEnd(s[..|s| - 1])
  }

  function Trim(s: string): string {
    TrimEnd(TrimStart(s))
  }

  predicate AllWhite(s: string, i: nat, j: nat) {
    forall k :: i <= k < j && k < |s| ==> IsWhitespace(s[k])
  }

  lemma {:induction false} TrimStartDrops(s: string) returns (i: nat)
    ensures i <= |s| && TrimStart(s) == s[i..] && AllWhite(s, 0, i) && (i < |s| ==> !IsWhitespace(s[i]))
  {
    if s == "" || !IsWhitespace(s[0]) {
      i := 0;
    } else {
      var j := TrimStartDrops(s[1..]);
      i := j + 1;
      forall k | 0 <= k < i ensures IsWhitespace(s[k]) {
        if k > 0 {
          assert s[k] == s[1..][k - 1];
        }
      }
    }
  }

  lemma {:induction false} TrimEndDrops(s: string) returns (j: nat)
    ensures j <= |s| && TrimEnd(s) == s[..j] && AllWhite(s, j, |s|) && (0 < j ==> !IsWhitespace(s[j - 1]))
  {
    if s == "" || !IsWhitespace(s[|s| - 1]) {
      j := |s|;
    } else {
      var t := s[..|s| - 1];
      j := TrimEndDrops(t);
      forall k | j <= k < |s| ensures IsWhitespace(s[k]) {
        if k < |t| {
          assert s[k] == t[k];
        }
      }
    }
  }

  /** Trimming cuts white space off both ends and leaves none there. */
  lemma {:induction false} TrimCutsBothEnds(s: string) returns (i: nat, j: nat)
    ensures i <= j <= |s| && Trim(s) == s[i..j]
    ensures AllWhite(s, 0, i) && AllWhite(s, j, |s|)
    ensures i < j ==> !IsWhitespace(s[i]) && !IsWhitespace(s[j - 1])
  {
    i := TrimStartDrops(s);
    var t := s[i..];
    var n := TrimEndDrops(t);
    j := i + n;
    forall k | j <= k < |s| ensures IsWhitespace(s[k]) {
      assert s[k] == t[k - i];
    }
    if 0 < n {
      assert t[n - 1] == s[j - 1] && i < |s|;
    }
  }

  lemma {:induction false} BlankIsWhite(s: string)
    requires Trim(s) == ""
    ensures AllWhite(s, 0, |s|)
  {
    var i, j := TrimCutsBothEnds(s);
  }

  lemma {:induction false} TrimTwice(s: string)
    ensures Trim(Trim(s)) == Trim(s)
  {
    var i, j := TrimCutsBothEnds(s);
    var t := Trim(s);
    assert t != "" ==> t[0] == s[i] && t[|t| - 1] == s[j - 1];
  }
}

/** Texts as bytes: the encoding of section 3 of RFC 3629.

    The models work on code points, the program on bytes.  Comparing two texts, and asking whether one begins with the
    other, gives the same answer on both. */
module Utf8 {
  import opened Sequences

  type Byte = b: nat | b < 0x100

  function Encode(c: char): (r: seq<Byte>)
    ensures 1 <= |r| <= 4
  {
    var n := c as int;
    if n < 0x80 then [n]
    else if n < 0x800 then [0xC0 + n / 0x40, 0x80 + n % 0x40]
    else if n < 0x10000 then [0xE0 + n / 0x40 / 0x40, 0x80 + n / 0x40 % 0x40, 0x80 + n % 0x40]
    else [0xF0 + n / 0x40 / 0x40 / 0x40, 0x80 + n / 0x40 / 0x40 % 0x40, 0x80 + n / 0x40 % 0x40, 0x80 + n % 0x40]
  }

  function Encoded(s: string): (r: seq<Byte>)
    ensures r == [] <==> s == ""
  {
    if s == "" then [] else Encode(s[0]) + Encoded(s[1..])
  }

  /** The order of texts by code points. */
  predicate Before(a: string, b: string)
    decreases |b|
  {
    b != "" && (a == "" || a[0] < b[0] || (a[0] == b[0] && Before(a[1..], b[1..])))
  }

  /** The order of texts by bytes. */
  predicate BytesBefore(a: seq<Byte>, b: seq<Byte>)
    decreases |b|
  {
    b != [] && (a == [] || a[0] < b[0] || (a[0] == b[0] && BytesBefore(a[1..], b[1..])))
  }

  lemma {:induction false} Irreflexive(a: string)
    ensures !Before(a, a)
  {
    if a != "" {
      Irreflexive(a[1..]);
    }
  }

  lemma {:induction false} Total(a: string, b: string)
    ensures a == b || Before(a, b) || Before(b, a)
  {
    if a != "" && b != "" && a[0] == b[0] {
      Total(a[1..], b[1..]);
      assert a == [a[0]] + a[1..] && b == [b[0]] + b[1..];
    }
  }

  lemma {:induction false} Transitive(a: string, b: string, c: string)
    requires Before(a, b) && Before(b, c)
    ensures Before(a, c)
  {
    if a != "" && a[0] == b[0] == c[0] {
      Transitive(a[1..], b[1..], c[1..]);
    }
  }

  // ------------------------------------------------------------------------------------------
  // One code point
  // ------------------------------------------------------------------------------------------

  lemma Digits(m: nat, n: nat)
    requires m < n
    ensures m / 0x40 < n / 0x40 || (m / 0x40 == n / 0x40 && m % 0x40 < n % 0x40)
  {
  }

  /** More bytes begin with a larger byte. */
  lemma LongerIsLater(c: char, d: char)
    requires |Encode(c)| < |Encode(d)|
    ensures c < d && Encode(c)[0] < Encode(d)[0]
  {
  }

  lemma ShortDifference(c: char, d: char) returns (k: nat)
    requires c < d && |Encode(c)| == |Encode(d)| <= 2
    ensures k < |Encode(c)| && Encode(c)[..k] == Encode(d)[..k] && Encode(c)[k] < Encode(d)[k]
  {
    var m, n := c as int, d as int;
    Digits(m, n);
    k := if n >= 0x80 && m / 0x40 == n / 0x40 then 1 else 0;
  }

  lemma LongDifference(c: char, d: char) returns (k: nat)
    requires c < d && |Encode(c)| == |Encode(d)| > 2
    ensures k < |Encode(c)| && Encode(c)[..k] == Encode(d)[..k] && Encode(c)[k] < Encode(d)[k]
  {
    var m, n := c as int, d as int;
    Digits(m, n);
    k := |Encode(c)| - 1;
    if m / 0x40 < n / 0x40 {
      Digits(m / 0x40, n / 0x40);
      k := k - 1;
      if m / 0x40 / 0x40 < n / 0x40 / 0x40 {
        Digits(m / 0x40 / 0x40, n / 0x40 / 0x40);
        k := if k == 2 && m / 0x40 / 0x40 / 0x40 == n / 0x40 / 0x40 / 0x40 then 1 else 0;
      }
    }
  }

  /** The first place where the bytes of two code points differ; the smaller code point has the smaller byte there. */
  lemma FirstDifference(c: char, d: char) returns (k: nat)
    requires c < d
    ensures k < |Encode(c)| && k < |Encode(d)|
    ensures Encode(c)[..k] == Encode(d)[..k] && Encode(c)[k] < Encode(d)[k]
  {
    hide Encode;
    if |Encode(d)| < |Encode(c)| {
      LongerIsLater(d, c);
    }
    if |Encode(c)| < |Encode(d)| {
      LongerIsLater(c, d);
      k := 0;
    } else if |Encode(c)| <= 2 {
      k := ShortDifference(c, d);
    } else {
      k := LongDifference(c, d);
    }
  }

  function Payload(b: Byte, lead: nat): int {
    b as int - lead
  }

  /** The table of section 3 of RFC 3629: how many bytes there are, what the first and the others look like, and the
      code point their payloads spell. */
  lemma EncodeIsTheTable(c: char)
    ensures var r, n := Encode(c), c as int;
            && |r| == (if n <= 0x7F then 1 else if n <= 0x7FF then 2 else if n <= 0xFFFF then 3 else 4)
            && (forall i :: 1 <= i < |r| ==> 0x80 <= r[i] <= 0xBF)
            && match |r|
               case 1 => r[0] == n
               case 2 => 0xC2 <= r[0] <= 0xDF && n == Payload(r[0], 0xC0) * 0x40 + Payload(r[1], 0x80)
               case 3 =>
                 && 0xE0 <= r[0] <= 0xEF
                 && n == Payload(r[0], 0xE0) * 0x1000 + Payload(r[1], 0x80) * 0x40 + Payload(r[2], 0x80)
               case _ =>
                 && 0xF0 <= r[0] <= 0xF4
                 && n == Payload(r[0], 0xF0) * 0x40000 + Payload(r[1], 0x80) * 0x1000 + Payload(r[2], 0x80) * 0x40
                         + Payload(r[3], 0x80)
  {
  }

  // ------------------------------------------------------------------------------------------
  // Texts
  // ------------------------------------------------------------------------------------------

  lemma {:induction false} DecidedAt(a: seq<Byte>, b: seq<Byte>, k: nat)
    requires k < |a| && k < |b| && a[..k] == b[..k] && a[k] < b[k]
    ensures BytesBefore(a, b) && !BytesBefore(b, a) && !(a <= b) && !(b <= a)
  {
    if k > 0 {
      assert a[0] == a[..k][0] == b[..k][0] == b[0];
      assert a[1..][..k - 1] == a[..k][1..] && b[1..][..k - 1] == b[..k][1..];
      DecidedAt(a[1..], b[1..], k - 1);
    }
  }

  lemma {:induction false} SharedStart(p: seq<Byte>, a: seq<Byte>, b: seq<Byte>)
    ensures BytesBefore(p + a, p + b) <==> BytesBefore(a, b)
    ensures p + a <= p + b <==> a <= b
    decreases |p|
  {
    if p == [] {
      assert p + a == a && p + b == b;
    } else {
      SharedStart(p[1..], a, b);
      assert (p + a)[0] == p[0] == (p + b)[0] && (p + a)[1..] == p[1..] + a && (p + b)[1..] == p[1..] + b;
      assert a <= b ==> p + a <= p + b by {
        if a <= b {
          assert b == a + b[|a|..];
          ConcatAssoc(p, a, b[|a|..]);
        }
      }
      assert p + a <= p + b ==> a <= b by {
        if p + a <= p + b {
          assert a == (p + a)[|p|..];
          assert forall i :: 0 <= i < |a| ==> a[i] == (p + a)[|p| + i] == (p + b)[|p| + i] == b[i];
        }
      }
    }
  }

  lemma DifferentHeads(c: char, d: char, a: seq<Byte>, b: seq<Byte>)
    requires c < d
    ensures BytesBefore(Encode(c) + a, Encode(d) + b) && !BytesBefore(Encode(d) + b, Encode(c) + a)
    ensures !(Encode(c) + a <= Encode(d) + b) && !(Encode(d) + b <= Encode(c) + a)
  {
    hide Encode;
    var k := FirstDifference(c, d);
    assert (Encode(c) + a)[..k] == Encode(c)[..k] && (Encode(d) + b)[..k] == Encode(d)[..k];
    DecidedAt(Encode(c) + a, Encode(d) + b, k);
  }

  /** The byte order of two texts is the order by code points. */
  lemma {:induction false} BytesKeepOrder(a: string, b: string)
    ensures BytesBefore(Encoded(a), Encoded(b)) <==> Before(a, b)
    decreases |a|
  {
    hide Encode;
    if a != "" && b != "" {
      if a[0] == b[0] {
        BytesKeepOrder(a[1..], b[1..]);
        SharedStart(Encode(a[0]), Encoded(a[1..]), Encoded(b[1..]));
      } else if a[0] < b[0] {
        DifferentHeads(a[0], b[0], Encoded(a[1..]), Encoded(b[1..]));
      } else {
        DifferentHeads(b[0], a[0], Encoded(b[1..]), Encoded(a[1..]));
      }
    }
  }

  /** One text begins with the other in bytes exactly if it does in code points. */
  lemma {:induction false} BytesKeepPrefixes(a: string, b: string)
    ensures Encoded(a) <= Encoded(b) <==> a <= b
    decreases |a|
  {
    hide Encode;
    if a != "" && b != "" {
      assert a == [a[0]] + a[1..] && b == [b[0]] + b[1..];
      if a[0] == b[0] {
        BytesKeepPrefixes(a[1..], b[1..]);
        SharedStart(Encode(a[0]), Encoded(a[1..]), Encoded(b[1..]));
        assert a <= b <==> a[1..] <= b[1..];
      } else if a[0] < b[0] {
        DifferentHeads(a[0], b[0], Encoded(a[1..]), Encoded(b[1..]));
      } else {
        DifferentHeads(b[0], a[0], Encoded(b[1..]), Encoded(a[1..]));
      }
    }
  }

  /** Different texts have different bytes. */
  lemma EncodedIsInjective(a: string, b: string)
    ensures Encoded(a) == Encoded(b) <==> a == b
  {
    BytesKeepPrefixes(a, b);
    BytesKeepPrefixes(b, a);
  }
}

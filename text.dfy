/** Text helpers shared by both engines: decimal rendering as done by
    std::to_string, lexicographic order of std::string, and the UTF-8
    encoding of wide characters. */
module Text {

  datatype Option<T> = None | Some(value: T)

  predicate IsDigit(c: char) { '0' <= c <= '9' }

  function DigitChar(d: nat): (c: char)
    requires d < 10
    ensures IsDigit(c) && (c as int) - ('0' as int) == d
  {
    ['0', '1', '2', '3', '4', '5', '6', '7', '8', '9'][d]
  }

  function DigitValue(c: char): nat
    requires IsDigit(c)
  {
    (c as int) - ('0' as int)
  }

  /** std::to_string of an unsigned value: decimal digits, no leading zero. */
  function NatToString(n: nat): (s: string)
    ensures |s| >= 1
    ensures forall i :: 0 <= i < |s| ==> IsDigit(s[i])
    ensures |s| > 1 ==> s[0] != '0'
    decreases n
  {
    if n < 10 then [DigitChar(n)] else NatToString(n / 10) + [DigitChar(n % 10)]
  }

  /** std::to_string of a signed value: a leading '-' for negative values. */
  function IntToString(i: int): string
  {
    if i < 0 then "-" + NatToString(-i) else NatToString(i)
  }

  function ParseNat(s: string): nat
    requires forall i :: 0 <= i < |s| ==> IsDigit(s[i])
  {
    if s == [] then 0 else ParseNat(s[..|s| - 1]) * 10 + DigitValue(s[|s| - 1])
  }

  /** Text ParseInt accepts: an optional '-' then digits. */
  predicate IsIntText(s: string)
  {
    |s| > 0 && (s[0] == '-' || IsDigit(s[0])) && forall i :: 0 < i < |s| ==> IsDigit(s[i])
  }

  function ParseInt(s: string): int
    requires IsIntText(s)
  {
    if s[0] == '-' then -(ParseNat(s[1..]) as int) else ParseNat(s) as int
  }

  lemma {:induction false} NatToStringRoundTrip(n: nat)
    ensures ParseNat(NatToString(n)) == n
    decreases n
  {
    if n >= 10 {
      var s := NatToString(n);
      assert s[..|s| - 1] == NatToString(n / 10);
      NatToStringRoundTrip(n / 10);
    }
  }

  lemma NegativeRoundTrip(n: nat)
    requires n > 0
    ensures IsIntText("-" + NatToString(n)) && ParseInt("-" + NatToString(n)) == -(n as int)
  {
    var t := NatToString(n);
    var s := "-" + t;
    assert s[1..] == t;
    assert forall k :: 0 < k < |s| ==> s[k] == t[k - 1];
    NatToStringRoundTrip(n);
  }

  lemma NonNegativeRoundTrip(n: nat)
    ensures IsIntText(NatToString(n)) && ParseInt(NatToString(n)) == n
  {
    var s := NatToString(n);
    assert IsDigit(s[0]);
    NatToStringRoundTrip(n);
    assert ParseInt(s) == ParseNat(s) as int;
  }

  /** Decimal rendering is a faithful encoding: parsing it back gives the value. */
  lemma IntToStringRoundTrip(i: int)
    ensures IsIntText(IntToString(i)) && ParseInt(IntToString(i)) == i
  {
    if i < 0 {
      NegativeRoundTrip(-i);
    } else {
      NonNegativeRoundTrip(i);
    }
  }

  /** So two different values never render to the same text. */
  lemma IntToStringInjective(a: int, b: int)
    requires IntToString(a) == IntToString(b)
    ensures a == b
  {
    IntToStringRoundTrip(a);
    IntToStringRoundTrip(b);
  }

  /** The order of std::string's operator<, character by character. */
  predicate LexLeq(a: string, b: string)
  {
    a == [] || (b != [] && (a[0] < b[0] || (a[0] == b[0] && LexLeq(a[1..], b[1..]))))
  }

  lemma {:induction false} LexLeqTotal(a: string, b: string)
    ensures LexLeq(a, b) || LexLeq(b, a)
  {
    if a != [] && b != [] && a[0] == b[0] {
      LexLeqTotal(a[1..], b[1..]);
    }
  }

  lemma {:induction false} LexLeqTransitive(a: string, b: string, c: string)
    requires LexLeq(a, b) && LexLeq(b, c)
    ensures LexLeq(a, c)
  {
    if a != [] && b != [] && c != [] && a[0] == b[0] && b[0] == c[0] {
      LexLeqTransitive(a[1..], b[1..], c[1..]);
    }
  }

  /** std::string::find of a character: the first position, or |s| when absent. */
  function IndexOf(s: string, c: char): (k: nat)
    ensures k <= |s|
  {
    if s == [] then 0 else if s[0] == c then 0 else 1 + IndexOf(s[1..], c)
  }

  /** IndexOf gives the first occurrence of `c`, or |s| when there is none. */
  lemma {:induction false} IndexOfFirst(s: string, c: char)
    ensures IndexOf(s, c) < |s| ==> s[IndexOf(s, c)] == c
    ensures forall i :: 0 <= i < IndexOf(s, c) ==> s[i] != c
  {
    if s != [] && s[0] != c {
      var t := s[1..];
      IndexOfFirst(t, c);
      forall i | 0 < i < IndexOf(s, c)
        ensures s[i] != c
      {
        assert s[i] == t[i - 1];
      }
      if IndexOf(s, c) < |s| {
        assert s[IndexOf(s, c)] == t[IndexOf(t, c)];
      }
    }
  }

  /** Conversely, a position holding `c` with no `c` before it is what IndexOf finds. */
  lemma {:induction false} IndexOfAt(s: string, c: char, k: nat)
    requires k <= |s| && (k < |s| ==> s[k] == c)
    requires forall i :: 0 <= i < k ==> s[i] != c
    ensures IndexOf(s, c) == k
  {
    if s != [] && k > 0 {
      var t := s[1..];
      assert s[0] != c;
      forall i | 0 <= i < k - 1
        ensures t[i] != c
      {
        assert t[i] == s[i + 1];
      }
      if k - 1 < |t| {
        assert t[k - 1] == s[k];
      }
      IndexOfAt(t, c, k - 1);
    }
  }


  /** Elements joined by a separator (the "first_iter" loops of the schema writer). */
  function Join(parts: seq<string>, sep: string): string
  {
    if parts == [] then "" else if |parts| == 1 then parts[0] else parts[0] + sep + Join(parts[1..], sep)
  }

  /** UTF-8 encoding of one code point, one byte per char, as std::codecvt_utf8
      writes it for code points up to U+10FFFF (Utf8CharDecodes); a larger
      value, which the converter refuses, is not encoded faithfully. */
  function Utf8Char(cp: nat): (s: string)
    ensures 1 <= |s| <= 4
    ensures forall i :: 0 <= i < |s| ==> s[i] as int < 256
    ensures |s| == 1 <==> cp < 0x80
  {
    if cp < 0x80 then [cp as char]
    else if cp < 0x800 then [(0xC0 + cp / 0x40) as char, (0x80 + cp % 0x40) as char]
    else if cp < 0x10000 then
      [(0xE0 + cp / 0x1000) as char, (0x80 + (cp / 0x40) % 0x40) as char, (0x80 + cp % 0x40) as char]
    else
      [(0xF0 + (cp / 0x40000) % 8) as char, (0x80 + (cp / 0x1000) % 0x40) as char,
       (0x80 + (cp / 0x40) % 0x40) as char, (0x80 + cp % 0x40) as char]
  }

  function Utf8(cps: seq<nat>): string
  {
    if cps == [] then "" else Utf8Char(cps[0]) + Utf8(cps[1..])
  }

  /** Wide text that is plain ASCII comes out unchanged, one byte per character. */
  lemma {:induction false} Utf8Ascii(cps: seq<nat>)
    requires forall i :: 0 <= i < |cps| ==> cps[i] < 0x80
    ensures |Utf8(cps)| == |cps|
    ensures forall i :: 0 <= i < |cps| ==> Utf8(cps)[i] as int == cps[i]
  {
    if cps != [] {
      Utf8Ascii(cps[1..]);
    }
  }

  // ------------------------------------------------------- UTF-8 decoding

  /** The number of bytes of the UTF-8 sequence a lead byte starts, or 0 for
      a byte that cannot start one. */
  function Utf8Length(b: char): nat
  {
    if b as int < 0x80 then 1
    else if b as int < 0xC0 then 0
    else if b as int < 0xE0 then 2
    else if b as int < 0xF0 then 3
    else if b as int < 0xF8 then 4
    else 0
  }

  predicate IsContinuation(b: char)
  {
    0x80 <= b as int < 0xC0
  }

  /** One well-formed UTF-8 sequence: a lead byte announcing the length and
      continuation bytes after it. */
  predicate Utf8Sequence(b: string)
  {
    |b| >= 1 && Utf8Length(b[0]) == |b| && forall i :: 1 <= i < |b| ==> IsContinuation(b[i])
  }

  /** The code point a well-formed sequence carries. */
  function Utf8Value(b: string): nat
    requires Utf8Sequence(b)
  {
    assert |b| > 1 ==> IsContinuation(b[1]);
    assert |b| > 2 ==> IsContinuation(b[2]);
    assert |b| > 3 ==> IsContinuation(b[3]);
    if |b| == 1 then b[0] as nat
    else if |b| == 2 then (b[0] as nat - 0xC0) * 0x40 + (b[1] as nat - 0x80)
    else if |b| == 3 then (b[0] as nat - 0xE0) * 0x1000 + (b[1] as nat - 0x80) * 0x40 + (b[2] as nat - 0x80)
    else (b[0] as nat - 0xF0) * 0x40000 + (b[1] as nat - 0x80) * 0x1000 + (b[2] as nat - 0x80) * 0x40 + (b[3] as nat - 0x80)
  }

  /** Reads UTF-8 text back as code points; None when it is not well formed. */
  function Utf8Decode(s: string): Option<seq<nat>>
    decreases |s|
  {
    if s == [] then Some([])
    else
      var n := Utf8Length(s[0]);
      if n == 0 || |s| < n || !Utf8Sequence(s[..n]) then None
      else match Utf8Decode(s[n..])
        case None => None
        case Some(rest) => Some([Utf8Value(s[..n])] + rest)
  }

  /** Each code point up to U+10FFFF is encoded as one well-formed sequence
      that carries it. */
  lemma Utf8CharDecodes(cp: nat)
    requires cp <= 0x10FFFF
    ensures Utf8Sequence(Utf8Char(cp)) && Utf8Value(Utf8Char(cp)) == cp
  {
    var q1, r1 := cp / 0x40, cp % 0x40;
    var q2, r2 := q1 / 0x40, q1 % 0x40;
    assert cp == q1 * 0x40 + r1;
    assert q1 == q2 * 0x40 + r2;
    if cp >= 0x10000 {
      assert cp / 0x1000 == q2;
      var q3, r3 := q2 / 0x40, q2 % 0x40;
      assert q2 == q3 * 0x40 + r3;
      assert cp / 0x40000 == q3;
      assert q3 <= 4;
    } else if cp >= 0x800 {
      assert cp / 0x1000 == q2;
    }
  }

  /** Text of code points up to U+10FFFF reads back as those code points. */
  lemma {:induction false} Utf8RoundTrip(cps: seq<nat>)
    requires forall i :: 0 <= i < |cps| ==> cps[i] <= 0x10FFFF
    ensures Utf8Decode(Utf8(cps)) == Some(cps)
  {
    if cps != [] {
      var head := Utf8Char(cps[0]);
      var s := Utf8(cps);
      Utf8CharDecodes(cps[0]);
      Utf8RoundTrip(cps[1..]);
      assert s == head + Utf8(cps[1..]);
      assert s[0] == head[0];
      assert s[..|head|] == head;
      assert s[|head|..] == Utf8(cps[1..]);
      assert [cps[0]] + cps[1..] == cps;
    }
  }
}

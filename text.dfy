/** Bytes, strings and the few pieces of Rust's string library the server relies on:
    UTF-8 encoding (`str::as_bytes`), lossy UTF-8 decoding (`String::from_utf8_lossy`),
    decimal formatting of an unsigned integer (`{}` in `format!`) and `str::split`. */
module Text {

  /** An octet of the wire format. */
  type Byte = x: int | 0 <= x < 256

  datatype Option<+T> = None | Some(value: T)

  const CR: Byte := 13
  const LF: Byte := 10

  /** U+FFFD, the character lossy decoding puts in place of an ill-formed sequence. */
  const Replacement: char := '\U{FFFD}'

  // ---------------------------------------------------------------------------
  // UTF-8 encoding
  // ---------------------------------------------------------------------------

  /** The UTF-8 encoding of one character. */
  function EncodeChar(c: char): (bs: seq<Byte>)
    ensures 1 <= |bs| <= 4
    ensures (|bs| == 1) == (c as int < 0x80)
    ensures |bs| == 1 ==> bs[0] == c as int
  {
    var n := c as int;
    if n < 0x80 then [n]
    else if n < 0x800 then [0xC0 + n / 0x40, 0x80 + n % 0x40]
    else if n < 0x1_0000 then [0xE0 + n / 0x1000, 0x80 + n / 0x40 % 0x40, 0x80 + n % 0x40]
    else [0xF0 + n / 0x4_0000, 0x80 + n / 0x1000 % 0x40, 0x80 + n / 0x40 % 0x40, 0x80 + n % 0x40]
  }

  /** The bytes of a string, as Rust stores it. */
  function Encode(s: string): (bs: seq<Byte>)
    ensures |bs| >= |s|
  {
    if s == [] then [] else EncodeChar(s[0]) + Encode(s[1..])
  }

  lemma {:induction false} EncodeAppend(a: string, b: string)
    ensures Encode(a + b) == Encode(a) + Encode(b)
  {
    if a != [] {
      assert (a + b)[1..] == a[1..] + b;
      EncodeAppend(a[1..], b);
    } else {
      assert a + b == b;
    }
  }

  // ---------------------------------------------------------------------------
  // Lossy UTF-8 decoding
  // ---------------------------------------------------------------------------

  predicate IsContinuation(b: Byte) {
    0x80 <= b < 0xC0
  }

  /** The length of the well-formed sequence a lead byte starts, or 0 for a byte
      that starts none (a continuation byte, 0xC0, 0xC1, 0xF5 to 0xFF). */
  function SequenceLength(lead: Byte): nat {
    if lead < 0x80 then 1
    else if 0xC2 <= lead < 0xE0 then 2
    else if 0xE0 <= lead < 0xF0 then 3
    else if 0xF0 <= lead < 0xF5 then 4
    else 0
  }

  /** The range the byte after a lead byte must fall in; it excludes overlong forms,
      surrogates and code points above U+10FFFF. */
  predicate SecondByteFits(lead: Byte, b: Byte) {
    if lead == 0xE0 then 0xA0 <= b < 0xC0
    else if lead == 0xED then 0x80 <= b < 0xA0
    else if lead == 0xF0 then 0x90 <= b < 0xC0
    else if lead == 0xF4 then 0x80 <= b < 0x90
    else IsContinuation(b)
  }

  /** How many bytes one decoding step consumes: a whole well-formed sequence, or the
      longest prefix of one that is still valid (at least one byte), which is then
      replaced by a single U+FFFD. */
  function StepLength(bs: seq<Byte>): (k: nat)
    requires |bs| > 0
    ensures 1 <= k <= |bs| && k <= 4
  {
    var w := SequenceLength(bs[0]);
    if w <= 1 then 1
    else if |bs| < 2 || !SecondByteFits(bs[0], bs[1]) then 1
    else if w == 2 then 2
    else if |bs| < 3 || !IsContinuation(bs[2]) then 2
    else if w == 3 then 3
    else if |bs| < 4 || !IsContinuation(bs[3]) then 3
    else 4
  }

  /** The character one decoding step yields. */
  function StepChar(bs: seq<Byte>): char
    requires |bs| > 0
  {
    var k := StepLength(bs);
    var b0 := bs[0] as int;
    if k != SequenceLength(bs[0]) then Replacement
    else if k == 1 then b0 as char
    else if k == 2 then ((b0 - 0xC0) * 0x40 + (bs[1] as int - 0x80)) as char
    else if k == 3 then ((b0 - 0xE0) * 0x1000 + (bs[1] as int - 0x80) * 0x40 + (bs[2] as int - 0x80)) as char
    else ((b0 - 0xF0) * 0x4_0000 + (bs[1] as int - 0x80) * 0x1000 + (bs[2] as int - 0x80) * 0x40 + (bs[3] as int - 0x80)) as char
  }

  /** `String::from_utf8_lossy`: well-formed sequences become their characters, each
      maximal ill-formed part becomes one U+FFFD. */
  function Decode(bs: seq<Byte>): (s: string)
    ensures |s| <= |bs|
    decreases |bs|
  {
    if bs == [] then [] else [StepChar(bs)] + Decode(bs[StepLength(bs)..])
  }

  /** A byte that starts no well-formed sequence (a continuation byte, 0xC0, 0xC1, 0xF5
      to 0xFF) is replaced on its own by one U+FFFD. */
  lemma DecodeInvalidByte(b: Byte, rest: seq<Byte>)
    requires SequenceLength(b) == 0
    ensures Decode([b] + rest) == [Replacement] + Decode(rest)
  {
    assert ([b] + rest)[1..] == rest;
  }

  /** A lead byte followed by a byte that cannot continue it is replaced on its own by
      one U+FFFD, and decoding resumes at the byte that follows. */
  lemma DecodeCutSequence(lead: Byte, b: Byte, rest: seq<Byte>)
    requires SequenceLength(lead) >= 2 && !SecondByteFits(lead, b)
    ensures Decode([lead, b] + rest) == [Replacement] + Decode([b] + rest)
  {
    assert ([lead, b] + rest)[1..] == [b] + rest;
  }

  lemma StepEncodeTwo(n: int, bs: seq<Byte>)
    requires 0x80 <= n < 0x800 && |bs| >= 2
    requires bs[0] == 0xC0 + n / 0x40 && bs[1] == 0x80 + n % 0x40
    ensures StepLength(bs) == 2 && SequenceLength(bs[0]) == 2
    ensures (bs[0] as int - 0xC0) * 0x40 + (bs[1] as int - 0x80) == n
  {
  }

  lemma StepEncodeThree(n: int, bs: seq<Byte>)
    requires 0x800 <= n < 0x1_0000 && !(0xD800 <= n < 0xE000) && |bs| >= 3
    requires bs[0] == 0xE0 + n / 0x1000 && bs[1] == 0x80 + n / 0x40 % 0x40 && bs[2] == 0x80 + n % 0x40
    ensures StepLength(bs) == 3 && SequenceLength(bs[0]) == 3
    ensures (bs[0] as int - 0xE0) * 0x1000 + (bs[1] as int - 0x80) * 0x40 + (bs[2] as int - 0x80) == n
  {
    var hi, mid, lo := n / 0x1000, n / 0x40 % 0x40, n % 0x40;
    assert n / 0x40 == hi * 0x40 + mid;
    assert n == hi * 0x1000 + mid * 0x40 + lo;
  }

  lemma StepEncodeFour(n: int, bs: seq<Byte>)
    requires 0x1_0000 <= n < 0x11_0000 && |bs| >= 4
    requires bs[0] == 0xF0 + n / 0x4_0000 && bs[1] == 0x80 + n / 0x1000 % 0x40
    requires bs[2] == 0x80 + n / 0x40 % 0x40 && bs[3] == 0x80 + n % 0x40
    ensures StepLength(bs) == 4 && SequenceLength(bs[0]) == 4
    ensures (bs[0] as int - 0xF0) * 0x4_0000 + (bs[1] as int - 0x80) * 0x1000
            + (bs[2] as int - 0x80) * 0x40 + (bs[3] as int - 0x80) == n
  {
    var top, hi, mid, lo := n / 0x4_0000, n / 0x1000 % 0x40, n / 0x40 % 0x40, n % 0x40;
    assert n / 0x1000 == top * 0x40 + hi;
    assert n / 0x40 == (top * 0x40 + hi) * 0x40 + mid;
    assert n == top * 0x4_0000 + hi * 0x1000 + mid * 0x40 + lo;
  }

  lemma StepEncodeChar(c: char, rest: seq<Byte>)
    ensures StepLength(EncodeChar(c) + rest) == |EncodeChar(c)|
    ensures StepChar(EncodeChar(c) + rest) == c
  {
    var n := c as int;
    var bs := EncodeChar(c) + rest;
    if n < 0x80 {
    } else if n < 0x800 {
      StepEncodeTwo(n, bs);
    } else if n < 0x1_0000 {
      StepEncodeThree(n, bs);
    } else {
      StepEncodeFour(n, bs);
    }
  }

  /** Decoding the bytes of any string gives the string back. */
  lemma {:induction false} DecodeEncode(s: string)
    ensures Decode(Encode(s)) == s
  {
    if s != [] {
      var bs := Encode(s);
      StepEncodeChar(s[0], Encode(s[1..]));
      assert bs[StepLength(bs)..] == Encode(s[1..]);
      DecodeEncode(s[1..]);
    }
  }

  // ---------------------------------------------------------------------------
  // Decimal formatting of an unsigned integer
  // ---------------------------------------------------------------------------

  predicate IsDigit(c: char) {
    '0' <= c <= '9'
  }

  function DigitChar(d: nat): (c: char)
    requires d < 10
    ensures IsDigit(c) && c as int - '0' as int == d
  {
    ('0' as int + d) as char
  }

  /** The decimal numeral of `n`, without sign or leading zeros. */
  function Decimal(n: nat): (s: string)
    ensures |s| >= 1
    ensures forall i :: 0 <= i < |s| ==> IsDigit(s[i])
    ensures s[0] == '0' ==> n == 0
  {
    if n < 10 then [DigitChar(n)] else Decimal(n / 10) + [DigitChar(n % 10)]
  }

  /** The value a string of digits denotes. */
  function DecimalValue(s: string): nat
    requires forall i :: 0 <= i < |s| ==> IsDigit(s[i])
  {
    if s == [] then 0
    else
      var last := s[|s| - 1];
      assert IsDigit(last);
      DecimalValue(s[..|s| - 1]) * 10 + (last as int - '0' as int)
  }

  /** The numeral denotes the number it was made from. */
  lemma {:induction false} DecimalRoundTrip(n: nat)
    ensures DecimalValue(Decimal(n)) == n
  {
    var s := Decimal(n);
    if n >= 10 {
      assert s[..|s| - 1] == Decimal(n / 10);
      DecimalRoundTrip(n / 10);
    }
  }

  // ---------------------------------------------------------------------------
  // str::split
  // ---------------------------------------------------------------------------

  /** The pieces joined back with a separator between each two. */
  function JoinWith(parts: seq<string>, sep: string): string
    requires |parts| >= 1
  {
    if |parts| == 1 then parts[0] else parts[0] + sep + JoinWith(parts[1..], sep)
  }

  /** `s.split(c)` for a one-character pattern `c`. */
  function SplitAt(s: string, c: char): (parts: seq<string>)
    ensures |parts| >= 1
  {
    if s == [] then [""]
    else if s[0] == c then [""] + SplitAt(s[1..], c)
    else var rest := SplitAt(s[1..], c); [[s[0]] + rest[0]] + rest[1..]
  }

  /** Splitting cuts exactly at the separators: no piece holds one, and joining the
      pieces with the separator gives the string back. */
  lemma {:induction false} SplitAtJoin(s: string, c: char)
    ensures JoinWith(SplitAt(s, c), [c]) == s
    ensures forall i :: 0 <= i < |SplitAt(s, c)| ==> c !in SplitAt(s, c)[i]
  {
    if s != [] {
      SplitAtJoin(s[1..], c);
      var rest := SplitAt(s[1..], c);
      assert [s[0]] + s[1..] == s;
      if s[0] != c {
        JoinCons(s[0], rest, [c]);
        var parts := SplitAt(s, c);
        assert parts[1..] == rest[1..];
        forall i | 0 <= i < |parts|
          ensures c !in parts[i]
        {
          if i == 0 {
            assert parts[0] == [s[0]] + rest[0];
          } else {
            assert parts[i] == rest[i];
          }
        }
      } else {
        assert SplitAt(s, c) == [""] + rest;
      }
    }
  }

  /** The middle part of a concatenation is found again by its offsets. */
  lemma SliceMiddle(a: string, b: string, c: string)
    ensures (a + b + c)[|a|..|a| + |b|] == b
  {
  }

  /** With at least two pieces, the string is the first piece, the separator, the
      second piece and a rest that is empty or starts with the separator. */
  lemma SplitAtFirstTwo(s: string, c: char) returns (rest: string)
    requires |SplitAt(s, c)| >= 2
    ensures var parts := SplitAt(s, c);
            && c !in parts[0] && c !in parts[1]
            && s == parts[0] + [c] + parts[1] + rest && (rest == [] || rest[0] == c)
  {
    var parts := SplitAt(s, c);
    SplitAtJoin(s, c);
    if |parts| == 2 {
      rest := [];
    } else {
      rest := [c] + JoinWith(parts[2..], [c]);
      assert JoinWith(parts[1..], [c]) == parts[1] + [c] + JoinWith(parts[2..], [c]);
    }
  }

  /** There is one more piece than there are separators. */
  lemma {:induction false} SplitAtCount(s: string, c: char)
    ensures |SplitAt(s, c)| == multiset(s)[c] + 1
  {
    if s != [] {
      assert s == [s[0]] + s[1..];
      assert multiset(s) == multiset([s[0]]) + multiset(s[1..]);
      SplitAtCount(s[1..], c);
    }
  }

  /** Up to the first separator is the first piece. */
  lemma {:induction false} SplitAtFirst(a: string, c: char, b: string)
    requires c !in a
    ensures SplitAt(a + [c] + b, c) == [a] + SplitAt(b, c)
  {
    if a == [] {
      assert a + [c] + b == [c] + b;
      assert ([c] + b)[1..] == b;
    } else {
      assert (a + [c] + b)[1..] == a[1..] + [c] + b;
      SplitAtFirst(a[1..], c, b);
      assert [a[0]] + a[1..] == a;
    }
  }

  /** `s` holds a CR immediately followed by LF. */
  predicate HasCrLf(s: string) {
    exists i :: 0 <= i < |s| - 1 && s[i] == '\r' && s[i + 1] == '\n'
  }

  /** `s.split("\r\n")`. CR and LF differ, so matches never overlap and the first
      match can be found one character at a time. */
  function SplitCrLf(s: string): (lines: seq<string>)
    ensures |lines| >= 1
  {
    if |s| < 2 then [s]
    else if s[0] == '\r' && s[1] == '\n' then [""] + SplitCrLf(s[2..])
    else var rest := SplitCrLf(s[1..]); [[s[0]] + rest[0]] + rest[1..]
  }

  /** Splitting on CR LF loses nothing: joining the lines with CR LF gives the text
      back. */
  lemma {:induction false} SplitCrLfJoin(s: string)
    ensures JoinWith(SplitCrLf(s), "\r\n") == s
  {
    if |s| >= 2 {
      if s[0] == '\r' && s[1] == '\n' {
        SplitCrLfJoin(s[2..]);
        assert s == "\r\n" + s[2..];
      } else {
        SplitCrLfJoin(s[1..]);
        var rest := SplitCrLf(s[1..]);
        JoinCons(s[0], rest, "\r\n");
        assert [s[0]] + s[1..] == s;
      }
    }
  }

  /** Putting a character before the first part puts it before the joined string. */
  lemma JoinCons(c: char, parts: seq<string>, sep: string)
    requires |parts| >= 1
    ensures JoinWith([[c] + parts[0]] + parts[1..], sep) == [c] + JoinWith(parts, sep)
  {
    var consed := [[c] + parts[0]] + parts[1..];
    if |parts| > 1 {
      assert consed[1..] == parts[1..];
    }
  }

  /** Splitting on CR LF cuts at every CR LF pair: no line holds one. */
  lemma {:induction false} SplitCrLfLines(s: string)
    ensures forall i :: 0 <= i < |SplitCrLf(s)| ==> !HasCrLf(SplitCrLf(s)[i])
  {
    if |s| >= 2 {
      if s[0] == '\r' && s[1] == '\n' {
        SplitCrLfLines(s[2..]);
        assert !HasCrLf("");
      } else {
        SplitCrLfLines(s[1..]);
        var rest := SplitCrLf(s[1..]);
        assert SplitCrLf(s)[1..] == rest[1..];
        assert rest[0] != [] ==> rest[0][0] == s[1] by {
          SplitCrLfJoin(s[1..]);
          if |rest| > 1 {
            assert s[1..] == rest[0] + ("\r\n" + JoinWith(rest[1..], "\r\n"));
          }
        }
        ConsNoCrLf(s[0], rest[0], s[1]);
      }
    } else {
      assert !HasCrLf(s);
    }
  }

  /** A character put before a line makes no CR LF pair with the line's first
      character `next`. */
  lemma ConsNoCrLf(c: char, line: string, next: char)
    requires !HasCrLf(line) && (line != [] ==> line[0] == next) && !(c == '\r' && next == '\n')
    ensures !HasCrLf([c] + line)
  {
    var first := [c] + line;
    forall i | 0 <= i < |first| - 1
      ensures !(first[i] == '\r' && first[i + 1] == '\n')
    {
      if i > 0 {
        assert first[i] == line[i - 1] && first[i + 1] == line[i];
      }
    }
  }

  /** Up to the first CR LF is the first line. */
  lemma {:induction false} SplitCrLfFirst(a: string, b: string)
    requires !HasCrLf(a)
    ensures SplitCrLf(a + "\r\n" + b) == [a] + SplitCrLf(b)
  {
    var s := a + "\r\n" + b;
    if a == [] {
      assert s == "\r\n" + b;
      assert s[2..] == b;
    } else {
      assert s[1..] == a[1..] + "\r\n" + b;
      forall i | 0 <= i < |a[1..]| - 1
        ensures !(a[1..][i] == '\r' && a[1..][i + 1] == '\n')
      {
        assert a[1..][i] == a[i + 1] && a[1..][i + 1] == a[i + 2];
      }
      assert !(s[0] == '\r' && s[1] == '\n') by {
        if |a| > 1 {
          assert s[1] == a[1];
        } else {
          assert s[1] == '\r';
        }
      }
      SplitCrLfFirst(a[1..], b);
      assert [a[0]] + a[1..] == a;
    }
  }

  /** A string without CR has no CR LF pair. */
  lemma NoCrNoCrLf(s: string)
    requires '\r' !in s
    ensures !HasCrLf(s)
  {
  }
}

/**
 The base64 codec of the HTTP etcd client: streaming bit accumulators.

 The accumulator `val` is a 32-bit int that the source shifts without masking; here it
 is its two's-complement bit pattern, a number below 2^32, so the overflow is explicit.
 Every shift the code makes reads bits below position 12, where an arithmetic and a
 logical shift agree.
 */
module Base64 {
  import opened Bytes
  import opened Wrapping

  const PAD: byte := 61
  const WORD: nat := 0x1_0000_0000

  type Digit = d: int | 0 <= d < 64

  // The standard alphabet A-Z a-z 0-9 + / by character code.
  function Sym(d: Digit): byte {
    if d < 26 then 65 + d
    else if d < 52 then 97 + (d - 26)
    else if d < 62 then 48 + (d - 52)
    else if d == 62 then 43
    else 47
  }

  // The inverse table; -1 for a character outside the alphabet.
  function Table(c: byte): (d: int)
    requires c < 128
    ensures -1 <= d < 64
    ensures d >= 0 ==> Sym(d) == c
  {
    if 65 <= c < 91 then c - 65
    else if 97 <= c < 123 then c - 97 + 26
    else if 48 <= c < 58 then c - 48 + 52
    else if c == 43 then 62
    else if c == 47 then 63
    else -1
  }

  const UPPER := "ABCDEFGHIJKLMNOPQRSTUVWXYZ"
  const LOWER := "abcdefghijklmnopqrstuvwxyz"
  const DIGITS := "0123456789"

  lemma LetterAt(k: nat)
    requires k < 26
    ensures UPPER[k] as int == 65 + k && LOWER[k] as int == 97 + k
  {
  }

  lemma DigitAt(k: nat)
    requires k < 10
    ensures DIGITS[k] as int == 48 + k
  {
  }

  // The alphabet is that of table 1 of RFC 4648.
  lemma SymIsAlphabet(d: Digit)
    ensures d < 26 ==> Sym(d) == UPPER[d] as int
    ensures 26 <= d < 52 ==> Sym(d) == LOWER[d - 26] as int
    ensures 52 <= d < 62 ==> Sym(d) == DIGITS[d - 52] as int
    ensures Sym(62) == '+' as int && Sym(63) == '/' as int && PAD == '=' as int
  {
    if d < 26 {
      LetterAt(d);
    } else if d < 52 {
      LetterAt(d - 26);
    } else if d < 62 {
      DigitAt(d - 52);
    }
  }

  lemma TableOfSym(d: Digit)
    ensures Sym(d) < 128 && Table(Sym(d)) == d
  {
  }

  // Six bits of the input, named by the bytes they come from.
  datatype Sextet = S0(a: byte) | S1(a: byte, b: byte) | S2(b: byte, c: byte) | S3(c: byte) {
    function Value(): Digit {
      match this
      case S0(a) => a / 4
      case S1(a, b) => a % 4 * 16 + b / 16
      case S2(b, c) => b % 16 * 4 + c / 64
      case S3(c) => c % 64
    }
  }

  function Values(d: seq<Sextet>): (v: seq<Digit>)
    ensures |v| == |d|
  {
    seq(|d|, i requires 0 <= i < |d| => d[i].Value())
  }

  function Text(v: seq<Digit>): (t: seq<byte>)
    ensures |t| == |v|
  {
    seq(|v|, i requires 0 <= i < |v| => Sym(v[i]))
  }

  function TextOf(d: seq<Sextet>): (t: seq<byte>)
    ensures |t| == |d|
  {
    Text(Values(d))
  }

  lemma TextConcat(a: seq<Sextet>, b: seq<Sextet>)
    ensures TextOf(a + b) == TextOf(a) + TextOf(b)
  {
    assert Values(a + b) == Values(a) + Values(b);
  }

  // ----- The group definition, section 4 of RFC 4648 ---------------------

  function Encoded(s: seq<byte>): seq<byte> {
    if s == [] then []
    else if |s| == 1 then TextOf([S0(s[0]), S1(s[0], 0)]) + [PAD, PAD]
    else if |s| == 2 then TextOf([S0(s[0]), S1(s[0], s[1]), S2(s[1], 0)]) + [PAD]
    else TextOf([S0(s[0]), S1(s[0], s[1]), S2(s[1], s[2]), S3(s[2])]) + Encoded(s[3..])
  }

  // The sextets of all bits of s, the last one filled up with zeros.
  function AllSextets(s: seq<byte>): seq<Sextet> {
    if s == [] then []
    else if |s| == 1 then [S0(s[0]), S1(s[0], 0)]
    else if |s| == 2 then [S0(s[0]), S1(s[0], s[1]), S2(s[1], 0)]
    else [S0(s[0]), S1(s[0], s[1]), S2(s[1], s[2]), S3(s[2])] + AllSextets(s[3..])
  }

  function Padding(n: nat): seq<byte> {
    if n % 4 == 0 then [] else if n % 4 == 3 then [PAD] else if n % 4 == 2 then [PAD, PAD] else [PAD, PAD, PAD]
  }

  lemma {:induction false} EncodedIsPaddedText(s: seq<byte>)
    ensures Encoded(s) == TextOf(AllSextets(s)) + Padding(|AllSextets(s)|)
  {
    if |s| >= 3 {
      EncodedIsPaddedText(s[3..]);
      TextConcat([S0(s[0]), S1(s[0], s[1]), S2(s[1], s[2]), S3(s[2])], AllSextets(s[3..]));
      assert |AllSextets(s)| == 4 + |AllSextets(s[3..])|;
    }
  }

  // Four characters for every three bytes begun, as many of them padding as bytes are missing from the last group.
  lemma {:induction false} EncodedShape(s: seq<byte>)
    ensures |Encoded(s)| == (|s| + 2) / 3 * 4
    ensures forall j | 0 <= j < |Encoded(s)| :: Encoded(s)[j] == PAD <==> j >= |Encoded(s)| - (3 - |s| % 3) % 3
    decreases |s|
  {
    if |s| >= 3 {
      EncodedShape(s[3..]);
      GroupShape(s);
    } else if |s| == 2 {
      ShapeOfTwo(s);
    } else if |s| == 1 {
      ShapeOfOne(s);
    }
  }

  lemma ShapeOfOne(s: seq<byte>)
    requires |s| == 1
    ensures |Encoded(s)| == 4 && forall j | 0 <= j < 4 :: Encoded(s)[j] == PAD <==> j >= 2
  {
    var head := TextOf([S0(s[0]), S1(s[0], 0)]);
    assert forall j | 0 <= j < 2 :: head[j] != PAD;
    assert Encoded(s) == head + [PAD, PAD];
  }

  lemma ShapeOfTwo(s: seq<byte>)
    requires |s| == 2
    ensures |Encoded(s)| == 4 && forall j | 0 <= j < 4 :: Encoded(s)[j] == PAD <==> j >= 3
  {
    var head := TextOf([S0(s[0]), S1(s[0], s[1]), S2(s[1], 0)]);
    assert forall j | 0 <= j < 3 :: head[j] != PAD;
    assert Encoded(s) == head + [PAD];
  }

  lemma GroupShape(s: seq<byte>)
    requires |s| >= 3
    ensures |Encoded(s)| == 4 + |Encoded(s[3..])|
    ensures forall j | 0 <= j < |Encoded(s)| :: Encoded(s)[j] == PAD <==> j >= 4 && Encoded(s[3..])[j - 4] == PAD
  {
    var head := TextOf([S0(s[0]), S1(s[0], s[1]), S2(s[1], s[2]), S3(s[2])]);
    assert Encoded(s) == head + Encoded(s[3..]);
    assert forall j | 0 <= j < 4 :: head[j] != PAD;
  }

  // ----- The encoder -----------------------------------------------------

  // The sextets that are complete once the bytes of s have been read.
  function Streamed(s: seq<byte>): seq<Sextet> {
    if s == [] then []
    else if |s| == 1 then [S0(s[0])]
    else if |s| == 2 then [S0(s[0]), S1(s[0], s[1])]
    else [S0(s[0]), S1(s[0], s[1]), S2(s[1], s[2]), S3(s[2])] + Streamed(s[3..])
  }

  // The sextets byte c completes when n bytes came before it, the last being p.
  function Emitted(n: nat, p: byte, c: byte): seq<Sextet> {
    if n % 3 == 0 then [S0(c)] else if n % 3 == 1 then [S1(p, c)] else [S2(p, c), S3(c)]
  }

  function Last(s: seq<byte>): byte {
    if s == [] then 0 else s[|s| - 1]
  }

  lemma {:induction false} StreamedSnoc(s: seq<byte>, c: byte)
    ensures Streamed(s + [c]) == Streamed(s) + Emitted(|s|, Last(s), c)
  {
    var t := s + [c];
    if |s| >= 3 {
      var g := [S0(s[0]), S1(s[0], s[1]), S2(s[1], s[2]), S3(s[2])];
      StreamedSnoc(s[3..], c);
      assert t[3..] == s[3..] + [c];
      assert Emitted(|s[3..]|, Last(s[3..]), c) == Emitted(|s|, Last(s), c);
      assert Streamed(t) == g + Streamed(t[3..]) && Streamed(s) == g + Streamed(s[3..]);
    } else {
      StreamedShort(s, c);
    }
  }

  lemma StreamedShort(s: seq<byte>, c: byte)
    requires |s| < 3
    ensures Streamed(s + [c]) == Streamed(s) + Emitted(|s|, Last(s), c)
  {
    if |s| == 0 { ShortNone(s, c); } else if |s| == 1 { ShortOne(s, c); } else { ShortTwo(s, c); }
  }

  lemma ShortNone(s: seq<byte>, c: byte)
    requires |s| == 0
    ensures Streamed(s + [c]) == Streamed(s) + Emitted(|s|, Last(s), c)
  {
    assert s + [c] == [c];
  }

  lemma ShortOne(s: seq<byte>, c: byte)
    requires |s| == 1
    ensures Streamed(s + [c]) == Streamed(s) + Emitted(|s|, Last(s), c)
  {
    assert s == [s[0]] && s + [c] == [s[0], c];
    StreamedTwo(s[0], c);
    assert Streamed(s) == [S0(s[0])];
    assert Emitted(1, s[0], c) == [S1(s[0], c)];
  }

  lemma ShortTwo(s: seq<byte>, c: byte)
    requires |s| == 2
    ensures Streamed(s + [c]) == Streamed(s) + Emitted(|s|, Last(s), c)
  {
    assert s == [s[0], s[1]] && s + [c] == [s[0], s[1], c];
    StreamedTwo(s[0], s[1]);
    StreamedThree(s[0], s[1], c);
  }

  lemma StreamedTwo(a: byte, b: byte)
    ensures Streamed([a, b]) == [S0(a), S1(a, b)]
  {
  }

  lemma StreamedThree(a: byte, b: byte, c: byte)
    ensures Streamed([a, b, c]) == [S0(a), S1(a, b), S2(b, c), S3(c)]
  {
    assert [a, b, c][3..] == [];
  }

  // The sextet the last partial group still owes.
  function Flushed(n: nat, p: byte): seq<Sextet> {
    if n % 3 == 0 then [] else if n % 3 == 1 then [S1(p, 0)] else [S2(p, 0)]
  }

  lemma {:induction false} StreamedThenFlushed(s: seq<byte>)
    ensures AllSextets(s) == Streamed(s) + Flushed(|s|, Last(s))
  {
    if |s| >= 3 {
      StreamedThenFlushed(s[3..]);
      assert Flushed(|s[3..]|, Last(s[3..])) == Flushed(|s|, Last(s));
    }
  }

  function Shift(v: nat, k: nat): nat {
    if k == 0 then v else if k == 2 then v / 4 else if k == 4 then v / 16 else if k == 6 then v / 64 else v / 256
  }

  // `valb` after n input bytes.
  function Pending(n: nat): int {
    if n % 3 == 0 then -6 else if n % 3 == 1 then -4 else -2
  }

  // The low bits of the accumulator are the unemitted bits of the last byte.
  ghost predicate Holds(val: nat, n: nat, p: byte) {
    && (n % 3 == 1 ==> val % 4 == p % 4)
    && (n % 3 == 2 ==> val % 16 == p % 16)
  }

  lemma TakeByte(val: nat, c: byte)
    requires val < WORD
    ensures (val * 256 + c) % WORD == (val % 0x100_0000) * 256 + c
  {
  }

  lemma SplitD1(x: nat, p: byte, c: byte)
    requires x % 4 == p % 4
    ensures (x * 256 + c) / 16 % 64 == S1(p, c).Value()
  {
    var q, h := x / 4, c / 16;
    assert x == 4 * q + p % 4 && c == 16 * h + c % 16;
    UniqueRemainder(x * 256 + c, 16, x * 16 + h, c % 16);
    UniqueRemainder(x * 16 + h, 64, q, p % 4 * 16 + h);
  }

  lemma SplitD2(x: nat, p: byte, c: byte)
    requires x % 16 == p % 16
    ensures (x * 256 + c) / 64 % 64 == S2(p, c).Value()
  {
    var q, h := x / 16, c / 64;
    assert x == 16 * q + p % 16 && c == 64 * h + c % 64;
    UniqueRemainder(x * 256 + c, 64, x * 4 + h, c % 64);
    UniqueRemainder(x * 4 + h, 64, q, p % 16 * 4 + h);
  }

  lemma Mod4(k: int, c: int)
    ensures (4 * k + c) % 4 == c % 4
  {
  }

  lemma Mod16(k: int, c: int)
    ensures (16 * k + c) % 16 == c % 16
  {
  }

  lemma Mod64(k: int, c: int)
    ensures (64 * k + c) % 64 == c % 64
  {
  }

  lemma LowBits(x: nat, c: byte)
    ensures var v := x * 256 + c;
      v % 4 == c % 4 && v % 16 == c % 16 && v % 64 == S3(c).Value() && v / 4 % 64 == S0(c).Value()
  {
    Mod4(x * 64, c);
    Mod16(x * 16, c);
    Mod64(x * 4, c);
    Mod64(x, c / 4);
    assert (x * 256 + c) / 4 == 64 * x + c / 4;
  }

  lemma NextByte(val: nat, n: nat, p: byte, c: byte)
    requires val < WORD && Holds(val, n, p)
    ensures var v := (val * 256 + c) % WORD;
      && Holds(v, n + 1, c)
      && (n % 3 == 0 ==> v / 4 % 64 == S0(c).Value())
      && (n % 3 == 1 ==> v / 16 % 64 == S1(p, c).Value())
      && (n % 3 == 2 ==> v / 64 % 64 == S2(p, c).Value() && v % 64 == S3(c).Value())
  {
    var x := val % 0x100_0000;
    var v := (val * 256 + c) % WORD;
    assert v == x * 256 + c by { TakeByte(val, c); }
    assert v % 4 == c % 4 && v % 16 == c % 16 && v % 64 == S3(c).Value() && v / 4 % 64 == S0(c).Value() by {
      LowBits(x, c);
    }
    if n % 3 == 1 {
      assert v / 16 % 64 == S1(p, c).Value() by { LowOf(val); SplitD1(x, p, c); }
    } else if n % 3 == 2 {
      assert v / 64 % 64 == S2(p, c).Value() by { LowOf(val); SplitD2(x, p, c); }
    }
  }

  lemma LowOf(val: nat)
    ensures var x := val % 0x100_0000; x % 4 == val % 4 && x % 16 == val % 16
  {
    var x, q := val % 0x100_0000, val / 0x100_0000;
    Mod4(q * 0x40_0000, x);
    Mod16(q * 0x10_0000, x);
  }

  lemma LastDigit(val: nat, n: nat, p: byte)
    requires val < WORD && Holds(val, n, p)
    ensures var v := (val * 256) % WORD;
      && (n % 3 == 1 ==> v / 16 % 64 == S1(p, 0).Value())
      && (n % 3 == 2 ==> v / 64 % 64 == S2(p, 0).Value())
  {
    NextByte(val, n, p, 0);
  }

  // The inner loop: every complete group of six bits at or above bit 0 is emitted.
  method EmitDigits(out: seq<byte>, val: nat, valb: int) returns (out': seq<byte>, valb': int)
    requires valb == 2 || valb == 4 || valb == 6
    ensures valb' == (if valb == 6 then -6 else valb - 6)
    ensures out' == out + (if valb == 6 then [Sym(val / 64 % 64), Sym(val % 64)] else [Sym(Shift(val, valb) % 64)])
  {
    out', valb' := out, valb;
    while valb' >= 0
      invariant valb' == valb || valb' == valb - 6 || (valb == 6 && valb' == -6)
      invariant valb' == valb ==> out' == out
      invariant valb' == valb - 6 ==> out' == out + [Sym(Shift(val, valb) % 64)]
      invariant valb' == valb - 12 ==> out' == out + [Sym(val / 64 % 64), Sym(val % 64)]
    {
      out' := out' + [Sym(Shift(val, valb') % 64)];
      valb' := valb' - 6;
    }
  }

  lemma EmittedText(n: nat, p: byte, c: byte, v: nat)
    requires n % 3 == 0 ==> v / 4 % 64 == S0(c).Value()
    requires n % 3 == 1 ==> v / 16 % 64 == S1(p, c).Value()
    requires n % 3 == 2 ==> v / 64 % 64 == S2(p, c).Value() && v % 64 == S3(c).Value()
    ensures TextOf(Emitted(n, p, c)) ==
      if n % 3 == 2 then [Sym(v / 64 % 64), Sym(v % 64)] else [Sym(Shift(v, (Pending(n) + 8) as nat) % 64)]
  {
  }

  // One input byte: the accumulator after it and the text it adds.
  lemma ByteStep(val: nat, n: nat, p: byte, c: byte)
    requires val < WORD && Holds(val, n, p)
    ensures var v := (val * 256 + c) % WORD;
      && Holds(v, n + 1, c)
      && TextOf(Emitted(n, p, c)) ==
         (if n % 3 == 2 then [Sym(v / 64 % 64), Sym(v % 64)] else [Sym(Shift(v, (Pending(n) + 8) as nat) % 64)])
  {
    NextByte(val, n, p, c);
    EmittedText(n, p, c, (val * 256 + c) % WORD);
  }

  lemma FlushStep(val: nat, n: nat, p: byte)
    requires val < WORD && Holds(val, n, p) && n % 3 != 0
    ensures TextOf(Flushed(n, p)) == [Sym(Shift((val * 256) % WORD, (Pending(n) + 8) as nat) % 64)]
  {
    LastDigit(val, n, p);
  }

  lemma StreamedNext(s: seq<byte>, i: nat)
    requires i < |s|
    ensures TextOf(Streamed(s[..i + 1])) == TextOf(Streamed(s[..i])) + TextOf(Emitted(i, Last(s[..i]), s[i]))
    ensures Last(s[..i + 1]) == s[i]
  {
    assert s[..i] + [s[i]] == s[..i + 1];
    StreamedSnoc(s[..i], s[i]);
    TextConcat(Streamed(s[..i]), Emitted(i, Last(s[..i]), s[i]));
  }

  lemma FlushedText(s: seq<byte>)
    ensures TextOf(AllSextets(s)) == TextOf(Streamed(s)) + TextOf(Flushed(|s|, Last(s)))
  {
    StreamedThenFlushed(s);
    TextConcat(Streamed(s), Flushed(|s|, Last(s)));
  }

  method B64Encode(s: seq<byte>) returns (out: seq<byte>)
    ensures out == Encoded(s)
  {
    out := [];
    var val, valb := 0, -6;
    for i := 0 to |s|
      invariant out == TextOf(Streamed(s[..i])) && valb == Pending(i)
      invariant 0 <= val < WORD && Holds(val, i, Last(s[..i]))
    {
      var c := s[i];
      ByteStep(val, i, Last(s[..i]), c);
      StreamedNext(s, i);
      val := (val * 256 + c) % WORD;
      valb := valb + 8;
      out, valb := EmitDigits(out, val, valb);
    }
    assert s[..|s|] == s;
    FlushedText(s);
    if valb > -6 {
      FlushStep(val, |s|, Last(s));
      out := out + [Sym(Shift((val * 256) % WORD, valb + 8) % 64)];
    }
    assert out == TextOf(AllSextets(s));
    EncodedIsPaddedText(s);
    out := Pad(out);
  }

  method Pad(body: seq<byte>) returns (out: seq<byte>)
    ensures out == body + Padding(|body|)
  {
    out := body;
    while |out| % 4 != 0
      invariant out + Padding(|out|) == body + Padding(|body|)
      decreases |Padding(|out|)|
    {
      assert Padding(|out|) == [PAD] + Padding(|out| + 1);
      out := out + [PAD];
    }
  }

  // ----- The decoder -----------------------------------------------------

  // The digits of a string; characters outside the alphabet, padding included, are skipped.
  function Digits(s: seq<byte>): seq<Digit> {
    if s == [] then []
    else if s[0] >= 128 || Table(s[0]) < 0 then Digits(s[1..])
    else [Table(s[0])] + Digits(s[1..])
  }

  // Eight bits of the output, named by the digits they come from.
  datatype Octet = O0(d: Digit, e: Digit) | O1(e: Digit, f: Digit) | O2(f: Digit, g: Digit) {
    function Value(): byte {
      match this
      case O0(d, e) => d * 4 + e / 16
      case O1(e, f) => e % 16 * 16 + f / 4
      case O2(f, g) => f % 4 * 64 + g
    }
  }

  // Four digits are three bytes; of a shorter rest only whole bytes count.
  function Octets(d: seq<Digit>): seq<Octet> {
    if |d| < 2 then []
    else if |d| == 2 then [O0(d[0], d[1])]
    else if |d| == 3 then [O0(d[0], d[1]), O1(d[1], d[2])]
    else [O0(d[0], d[1]), O1(d[1], d[2]), O2(d[2], d[3])] + Octets(d[4..])
  }

  function BytesOf(o: seq<Octet>): (s: seq<byte>)
    ensures |s| == |o|
  {
    seq(|o|, i requires 0 <= i < |o| => o[i].Value())
  }

  function Decoded(d: seq<Digit>): seq<byte> {
    BytesOf(Octets(d))
  }

  function Final(d: seq<Digit>): Digit {
    if d == [] then 0 else d[|d| - 1]
  }

  // The octet digit x completes when n digits came before it, the last being p.
  function Completed(n: nat, p: Digit, x: Digit): seq<Octet> {
    if n % 4 == 0 then [] else if n % 4 == 1 then [O0(p, x)] else if n % 4 == 2 then [O1(p, x)] else [O2(p, x)]
  }

  lemma OctetsShort(d: seq<Digit>, x: Digit)
    requires |d| < 4
    ensures Octets(d + [x]) == Octets(d) + Completed(|d|, Final(d), x)
  {
    if |d| == 0 {
      OctetsAfterNone(d, x);
    } else if |d| == 1 {
      OctetsAfterOne(d, x);
    } else if |d| == 2 {
      OctetsAfterTwo(d, x);
    } else {
      OctetsAfterThree(d, x);
    }
  }

  lemma OctetsOfOne(e: seq<Digit>)
    requires |e| <= 1
    ensures Octets(e) == []
  {
  }

  lemma OctetsAfterNone(d: seq<Digit>, x: Digit)
    requires |d| == 0
    ensures Octets(d + [x]) == Octets(d) + Completed(|d|, Final(d), x)
  {
    OctetsOfOne(d);
    OctetsOfOne(d + [x]);
  }

  lemma OctetsAfterOne(d: seq<Digit>, x: Digit)
    requires |d| == 1
    ensures Octets(d + [x]) == Octets(d) + Completed(|d|, Final(d), x)
  {
    OctetsOfOne(d);
    OctetsOfTwo(d + [x]);
  }

  lemma OctetsAfterTwo(d: seq<Digit>, x: Digit)
    requires |d| == 2
    ensures Octets(d + [x]) == Octets(d) + Completed(|d|, Final(d), x)
  {
    assert (d + [x])[..2] == d;
    OctetsOfThree(d + [x]);
  }

  lemma OctetsAfterThree(d: seq<Digit>, x: Digit)
    requires |d| == 3
    ensures Octets(d + [x]) == Octets(d) + Completed(|d|, Final(d), x)
  {
    assert (d + [x])[..3] == d;
    OctetsOfFour(d + [x]);
  }

  lemma OctetsOfTwo(e: seq<Digit>)
    requires |e| == 2
    ensures Octets(e) == [O0(e[0], e[1])]
  {
  }

  lemma OctetsOfThree(e: seq<Digit>)
    requires |e| == 3
    ensures Octets(e) == Octets(e[..2]) + [O1(e[1], e[2])]
  {
  }

  lemma OctetsOfFour(e: seq<Digit>)
    requires |e| == 4
    ensures Octets(e) == Octets(e[..3]) + [O2(e[2], e[3])]
  {
    assert Octets(e[4..]) == [];
    assert Octets(e) == [O0(e[0], e[1]), O1(e[1], e[2]), O2(e[2], e[3])];
  }

  lemma {:induction false} OctetsSnoc(d: seq<Digit>, x: Digit)
    ensures Octets(d + [x]) == Octets(d) + Completed(|d|, Final(d), x)
  {
    if |d| < 4 {
      OctetsShort(d, x);
    } else {
      var e, g := d + [x], [O0(d[0], d[1]), O1(d[1], d[2]), O2(d[2], d[3])];
      OctetsSnoc(d[4..], x);
      assert e[4..] == d[4..] + [x];
      assert Completed(|d[4..]|, Final(d[4..]), x) == Completed(|d|, Final(d), x);
      assert Octets(e) == g + Octets(e[4..]);
      assert Octets(d) == g + Octets(d[4..]);
    }
  }

  lemma {:induction false} DigitsConcat(a: seq<byte>, b: seq<byte>)
    ensures Digits(a + b) == Digits(a) + Digits(b)
  {
    if a == [] {
      assert a + b == b;
    } else {
      assert (a + b)[1..] == a[1..] + b;
      DigitsConcat(a[1..], b);
    }
  }

  // `valb` after n digits.
  function Owed(n: nat): int {
    if n % 4 == 0 then -8 else if n % 4 == 1 then -2 else if n % 4 == 2 then -4 else -6
  }

  ghost predicate Keeps(val: nat, n: nat, p: Digit) {
    && (n % 4 == 1 ==> val % 64 == p)
    && (n % 4 == 2 ==> val % 16 == p % 16)
    && (n % 4 == 3 ==> val % 4 == p % 4)
  }

  lemma TakeDigit(val: nat, x: Digit)
    requires val < WORD
    ensures (val * 64 + x) % WORD == (val % 0x400_0000) * 64 + x
  {
  }

  lemma SplitB0(y: nat, p: Digit, x: Digit)
    requires y % 64 == p
    ensures (y * 64 + x) / 16 % 256 == O0(p, x).Value()
  {
    var q, h := y / 64, x / 16;
    assert y == 64 * q + p && x == 16 * h + x % 16;
    UniqueRemainder(y * 64 + x, 16, y * 4 + h, x % 16);
    UniqueRemainder(y * 4 + h, 256, q, p * 4 + h);
  }

  lemma SplitB1(y: nat, p: Digit, x: Digit)
    requires y % 16 == p % 16
    ensures (y * 64 + x) / 4 % 256 == O1(p, x).Value()
  {
    var q, h := y / 16, x / 4;
    assert y == 16 * q + p % 16 && x == 4 * h + x % 4;
    UniqueRemainder(y * 64 + x, 4, y * 16 + h, x % 4);
    UniqueRemainder(y * 16 + h, 256, q, p % 16 * 16 + h);
  }

  lemma SplitB2(y: nat, p: Digit, x: Digit)
    requires y % 4 == p % 4
    ensures (y * 64 + x) % 256 == O2(p, x).Value()
  {
    var q := y / 4;
    assert y == 4 * q + p % 4;
    UniqueRemainder(y * 64 + x, 256, q, p % 4 * 64 + x);
  }

  lemma LowOfDigits(val: nat)
    ensures var y := val % 0x400_0000; y % 4 == val % 4 && y % 16 == val % 16 && y % 64 == val % 64
  {
  }

  lemma LowBitsDigit(y: nat, x: Digit)
    ensures var v := y * 64 + x; v % 64 == x && v % 16 == x % 16 && v % 4 == x % 4
  {
    UniqueRemainder(y * 64 + x, 64, y, x);
    UniqueRemainder(y * 64 + x, 16, 4 * y + x / 16, x % 16);
    UniqueRemainder(y * 64 + x, 4, 16 * y + x / 4, x % 4);
  }

  lemma NextDigit(val: nat, n: nat, p: Digit, x: Digit)
    requires val < WORD && Keeps(val, n, p)
    ensures var v := (val * 64 + x) % WORD;
      && Keeps(v, n + 1, x)
      && (n % 4 == 1 ==> v / 16 % 256 == O0(p, x).Value())
      && (n % 4 == 2 ==> v / 4 % 256 == O1(p, x).Value())
      && (n % 4 == 3 ==> v % 256 == O2(p, x).Value())
  {
    var y := val % 0x400_0000;
    var v := (val * 64 + x) % WORD;
    assert v == y * 64 + x by { TakeDigit(val, x); }
    assert v % 64 == x && v % 16 == x % 16 && v % 4 == x % 4 by { LowBitsDigit(y, x); }
    if n % 4 == 1 {
      assert v / 16 % 256 == O0(p, x).Value() by { LowOfDigits(val); SplitB0(y, p, x); }
    } else if n % 4 == 2 {
      assert v / 4 % 256 == O1(p, x).Value() by { LowOfDigits(val); SplitB1(y, p, x); }
    } else if n % 4 == 3 {
      assert v % 256 == O2(p, x).Value() by { LowOfDigits(val); SplitB2(y, p, x); }
    }
  }

  lemma BytesConcat(a: seq<Octet>, b: seq<Octet>)
    ensures BytesOf(a + b) == BytesOf(a) + BytesOf(b)
  {
  }

  // One input digit: the accumulator after it and the byte it adds.
  lemma DigitStep(val: nat, n: nat, p: Digit, x: Digit)
    requires val < WORD && Keeps(val, n, p)
    ensures var v := (val * 64 + x) % WORD;
      && Keeps(v, n + 1, x)
      && BytesOf(Completed(n, p, x)) ==
         if n % 4 == 0 then [] else [Shift(v, (Owed(n) + 6) as nat) % 256]
  {
    NextDigit(val, n, p, x);
  }

  lemma DigitsOfOne(c: byte)
    ensures Digits([c]) == if c >= 128 || Table(c) < 0 then [] else [Table(c)]
  {
    assert [c][1..] == [];
  }

  lemma NextInput(s: seq<byte>, i: nat)
    requires i < |s|
    ensures Digits(s[..i + 1]) == Digits(s[..i]) + if s[i] >= 128 || Table(s[i]) < 0 then [] else [Table(s[i])]
  {
    assert s[..i + 1] == s[..i] + [s[i]];
    DigitsConcat(s[..i], [s[i]]);
    DigitsOfOne(s[i]);
  }

  // What one more digit does to the accumulator, the bit balance and the output.
  lemma DecodeStep(ds: seq<Digit>, d: Digit, val: nat)
    requires val < WORD && Keeps(val, |ds|, Final(ds))
    ensures var v := (val * 64 + d) % WORD; var b := Owed(|ds|) + 6;
      && Keeps(v, |ds| + 1, Final(ds + [d]))
      && Owed(|ds| + 1) == (if b >= 0 then b - 8 else b)
      && Decoded(ds + [d]) == Decoded(ds) + if b >= 0 then [Shift(v, b) % 256] else []
  {
    assert Decoded(ds + [d]) == Decoded(ds) + BytesOf(Completed(|ds|, Final(ds), d)) by {
      OctetsSnoc(ds, d);
      BytesConcat(Octets(ds), Completed(|ds|, Final(ds), d));
    }
    DigitStep(val, |ds|, Final(ds), d);
    OwedNext(|ds|);
  }

  lemma OwedNext(n: nat)
    ensures Owed(n) + 6 >= 0 <==> n % 4 != 0
    ensures Owed(n + 1) == if n % 4 == 0 then Owed(n) + 6 else Owed(n) - 2
  {
  }

  method B64Decode(s: seq<byte>) returns (out: seq<byte>)
    ensures out == Decoded(Digits(s))
  {
    out := [];
    var val, valb := 0, -8;
    ghost var ds: seq<Digit> := [];
    for i := 0 to |s|
      invariant ds == Digits(s[..i]) && out == Decoded(ds) && valb == Owed(|ds|)
      invariant 0 <= val < WORD && Keeps(val, |ds|, Final(ds))
    {
      var c := s[i];
      NextInput(s, i);
      if c >= 128 { continue; }
      var d := Table(c);
      if d < 0 { continue; }
      DecodeStep(ds, d, val);
      ds := ds + [d];
      val := (val * 64 + d) % WORD;
      valb := valb + 6;
      if valb >= 0 {
        out := out + [Shift(val, valb) % 256];
        valb := valb - 8;
      }
    }
    assert s[..|s|] == s;
  }

  // ----- The round trip --------------------------------------------------

  lemma {:induction false} DigitsOfText(d: seq<Digit>)
    ensures Digits(Text(d)) == d
  {
    if d != [] {
      TableOfSym(d[0]);
      assert Text(d)[1..] == Text(d[1..]);
      DigitsOfText(d[1..]);
    }
  }

  lemma DigitsOfPadding(n: nat)
    ensures Digits(Padding(n)) == []
  {
    var p := Padding(n);
    if |p| >= 1 { assert Digits(p) == Digits(p[1..]); }
    if |p| >= 2 { assert Digits(p[1..]) == Digits(p[1..][1..]); }
    if |p| >= 3 { assert Digits(p[1..][1..]) == Digits(p[1..][1..][1..]); }
  }

  lemma SextetsToOctets(a: byte, b: byte, c: byte)
    ensures O0(S0(a).Value(), S1(a, b).Value()).Value() == a
    ensures O1(S1(a, b).Value(), S2(b, c).Value()).Value() == b
    ensures O2(S2(b, c).Value(), S3(c).Value()).Value() == c
  {
  }

  lemma DecodedPair(d: Digit, e: Digit)
    ensures Decoded([d, e]) == [O0(d, e).Value()]
  {
    assert Octets([d, e]) == [O0(d, e)];
  }

  lemma ValuesPair(s: Sextet, t: Sextet)
    ensures Values([s, t]) == [s.Value(), t.Value()]
  {
  }

  lemma DecodeOne(a: byte)
    ensures Decoded(Values([S0(a), S1(a, 0)])) == [a]
  {
    ValuesPair(S0(a), S1(a, 0));
    DecodedPair(S0(a).Value(), S1(a, 0).Value());
    assert O0(S0(a).Value(), S1(a, 0).Value()).Value() == a by { SextetsToOctets(a, 0, 0); }
  }

  lemma DecodeTwo(a: byte, b: byte)
    ensures Decoded(Values([S0(a), S1(a, b), S2(b, 0)])) == [a, b]
  {
    var v := Values([S0(a), S1(a, b), S2(b, 0)]);
    SextetsToOctets(a, b, 0);
    assert Octets(v) == [O0(v[0], v[1]), O1(v[1], v[2])];
  }

  lemma DecodeTail(s: seq<byte>)
    requires |s| < 3
    ensures Decoded(Values(AllSextets(s))) == s
  {
    if |s| == 1 {
      DecodeOne(s[0]);
      assert s == [s[0]];
    } else if |s| == 2 {
      DecodeTwo(s[0], s[1]);
      assert s == [s[0], s[1]];
    }
  }

  lemma DecodeGroup(a: byte, b: byte, c: byte, d: seq<Sextet>)
    ensures Decoded(Values([S0(a), S1(a, b), S2(b, c), S3(c)] + d)) == [a, b, c] + Decoded(Values(d))
  {
    var v := Values([S0(a), S1(a, b), S2(b, c), S3(c)] + d);
    SextetsToOctets(a, b, c);
    assert v[4..] == Values(d);
    assert Octets(v) == [O0(v[0], v[1]), O1(v[1], v[2]), O2(v[2], v[3])] + Octets(v[4..]);
  }

  lemma {:induction false} DecodeSextets(s: seq<byte>)
    ensures Decoded(Values(AllSextets(s))) == s
  {
    if |s| < 3 {
      DecodeTail(s);
    } else {
      DecodeGroup(s[0], s[1], s[2], AllSextets(s[3..]));
      DecodeSextets(s[3..]);
      assert s == [s[0], s[1], s[2]] + s[3..];
    }
  }

  lemma RoundTrip(s: seq<byte>)
    ensures Decoded(Digits(Encoded(s))) == s
  {
    var d := AllSextets(s);
    EncodedIsPaddedText(s);
    DigitsConcat(TextOf(d), Padding(|d|));
    DigitsOfText(Values(d));
    DigitsOfPadding(|d|);
    assert Digits(Encoded(s)) == Values(d);
    DecodeSextets(s);
  }

  // What is sent to the server as base64 is read back unchanged.
  method EncodeThenDecode(s: seq<byte>) returns (back: seq<byte>)
    ensures back == s
  {
    var e := B64Encode(s);
    back := B64Decode(e);
    RoundTrip(s);
  }
}

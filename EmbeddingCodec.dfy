/** Decoding of the embedding blobs stored with each couplet: `processEmbeddingBinding`
    cleans the stored text and `hexStringToFloatArray` turns the hexadecimal digits into bytes,
    pads them to whole 4-byte groups and views each group as one single-precision float. */
module EmbeddingCodec {
  import opened Wrappers
  import opened JsText
  import opened SeqFacts

  /** One element of a `Uint8Array`. */
  newtype byte = x: int | 0 <= x < 256

  /** One element of a `Float32Array`, kept as the four bytes, in buffer order, that the
      platform reads as an IEEE-754 single-precision number. Which number they denote is not
      part of this model; two floats are equal here exactly when their bytes are. */
  datatype Float32 = Float32(b0: byte, b1: byte, b2: byte, b3: byte)

  type Vector = seq<Float32>

  // ---------------------------------------------------------------------------------------
  // Cleaning the stored text

  /** The wrapper the storage layer writes in front of the hexadecimal digits. */
  const OptionalPrefix: string := "Optional(x'"

  predicate OccursAt(s: string, lit: string, k: int) {
    0 <= k && k + |lit| <= |s| && s[k..k + |lit|] == lit
  }

  /** `s.replace(/lit/, "")` for a literal pattern: the leftmost occurrence, if any, is
      removed. */
  function RemoveFirst(s: string, lit: string): (r: string)
    requires lit != []
    ensures |r| <= |s|
    decreases |s|
  {
    if |s| < |lit| then s
    else if s[..|lit|] == lit then s[|lit|..]
    else [s[0]] + RemoveFirst(s[1..], lit)
  }

  /** Only the leftmost occurrence is removed; everything around it is kept. */
  lemma {:induction false} RemoveFirstAt(s: string, lit: string, k: nat)
    requires lit != []
    requires OccursAt(s, lit, k)
    requires forall j :: 0 <= j < k ==> !OccursAt(s, lit, j)
    ensures RemoveFirst(s, lit) == s[..k] + s[k + |lit|..]
  {
    if k == 0 {
      assert s[..|lit|] == lit;
    } else {
      assert !OccursAt(s, lit, 0);
      var t := s[1..];
      calc {
        RemoveFirst(s, lit);
        [s[0]] + RemoveFirst(t, lit);
        { OccursAtTail(s, lit, k); RemoveFirstAt(t, lit, k - 1); }
        [s[0]] + (t[..k - 1] + t[k - 1 + |lit|..]);
        ([s[0]] + t[..k - 1]) + t[k - 1 + |lit|..];
        { TakeCons(s, k); DropCons(s, k + |lit|); }
        s[..k] + s[k + |lit|..];
      }
    }
  }

  /** Occurrences in `s[1..]` are the occurrences in `s` one place later. */
  lemma OccursAtTail(s: string, lit: string, k: nat)
    requires 0 < k && OccursAt(s, lit, k)
    requires forall j :: 0 <= j < k ==> !OccursAt(s, lit, j)
    ensures OccursAt(s[1..], lit, k - 1)
    ensures forall j :: 0 <= j < k - 1 ==> !OccursAt(s[1..], lit, j)
  {
    forall j | 0 <= j < k
      ensures OccursAt(s[1..], lit, j) <==> OccursAt(s, lit, j + 1)
    {
      if j + 1 + |lit| <= |s| {
        SliceCons(s, j + 1, j + 1 + |lit|);
      }
    }
  }

  /** Without an occurrence the text is unchanged. */
  lemma {:induction false} RemoveFirstAbsent(s: string, lit: string)
    requires lit != []
    requires forall j :: 0 <= j ==> !OccursAt(s, lit, j)
    ensures RemoveFirst(s, lit) == s
  {
    if |s| >= |lit| {
      assert !OccursAt(s, lit, 0);
      forall j | 0 <= j
        ensures !OccursAt(s[1..], lit, j)
      {
        assert !OccursAt(s, lit, j + 1);
        if j + |lit| <= |s| - 1 {
          assert s[1..][j..j + |lit|] == s[j + 1..j + 1 + |lit|];
        }
      }
      RemoveFirstAbsent(s[1..], lit);
    }
  }

  /** `s.replace(/'?\)/, "")`: the leftmost match is the first `)`, together with the `'`
      just before it when there is one. */
  function RemoveClosing(s: string): (r: string)
    ensures |r| <= |s|
  {
    if s == [] then []
    else if |s| >= 2 && s[0] == '\'' && s[1] == ')' then s[2..]
    else if s[0] == ')' then s[1..]
    else [s[0]] + RemoveClosing(s[1..])
  }

  /** The first `)` at index `j` is removed, and so is a quote right before it; nothing else
      changes. */
  lemma {:induction false} RemoveClosingAt(s: string, j: nat)
    requires j < |s| && s[j] == ')'
    requires forall i :: 0 <= i < j ==> s[i] != ')'
    ensures RemoveClosing(s)
         == if j > 0 && s[j - 1] == '\'' then s[..j - 1] + s[j + 1..] else s[..j] + s[j + 1..]
  {
    if j == 1 && s[0] == '\'' {
    } else if j > 0 {
      assert RemoveClosing(s) == [s[0]] + RemoveClosing(s[1..]);
      assert s[1..][j - 1] == ')';
      RemoveClosingAt(s[1..], j - 1);
      if j - 1 > 0 && s[j - 1] == '\'' {
        TakeCons(s, j - 1);
      } else {
        TakeCons(s, j);
      }
      DropCons(s, j + 1);
    }
  }

  /** Without a `)` the text is unchanged. */
  lemma {:induction false} RemoveClosingAbsent(s: string)
    requires ')' !in s
    ensures RemoveClosing(s) == s
  {
    if s != [] {
      RemoveClosingAbsent(s[1..]);
    }
  }

  /** `s.replace(/\s/g, "")`: every whitespace character removed. */
  function StripWhitespace(s: string): (r: string)
    ensures forall i :: 0 <= i < |r| ==> !IsJsWhitespace(r[i])
  {
    if s == [] then []
    else (if IsJsWhitespace(s[0]) then [] else [s[0]]) + StripWhitespace(s[1..])
  }

  /** Stripping works character by character, so it distributes over concatenation and keeps
      the order of the characters it does not remove. */
  lemma {:induction false} StripWhitespaceAppend(a: string, b: string)
    ensures StripWhitespace(a + b) == StripWhitespace(a) + StripWhitespace(b)
  {
    if a == [] {
      assert a + b == b;
    } else {
      assert (a + b)[0] == a[0];
      assert (a + b)[1..] == a[1..] + b;
      StripWhitespaceAppend(a[1..], b);
    }
  }

  /** Stripping keeps every other character, as often as it occurs. */
  lemma {:induction false} StripWhitespaceKeeps(s: string, c: char)
    requires !IsJsWhitespace(c)
    ensures CountChar(StripWhitespace(s), c) == CountChar(s, c)
  {
    if s != [] {
      StripWhitespaceKeeps(s[1..], c);
      CountCharAppend(if IsJsWhitespace(s[0]) then [] else [s[0]], StripWhitespace(s[1..]), c);
    }
  }

  /** Text without whitespace is left as it is. */
  lemma {:induction false} StripWhitespaceClean(s: string)
    requires forall i :: 0 <= i < |s| ==> !IsJsWhitespace(s[i])
    ensures StripWhitespace(s) == s
  {
    if s != [] {
      StripWhitespaceClean(s[1..]);
      assert [s[0]] + s[1..] == s;
    }
  }

  /** The text `processEmbeddingBinding` checks for emptiness: wrapper prefix and closing
      removed once each, whitespace removed everywhere. */
  function CleanBinding(binding: string): string
  {
    StripWhitespace(RemoveClosing(RemoveFirst(binding, OptionalPrefix)))
  }

  /** `s.replace(/^x/, "")`: one leading `x`, if present, is dropped. */
  function StripLeadingX(s: string): string
  {
    if s != [] && s[0] == 'x' then s[1..] else s
  }

  /** `processEmbeddingBinding`: an empty cleaned text gives null; otherwise one leading `x`
      is dropped and the rest decoded. The decoder fails only when nothing is left. */
  function ProcessEmbeddingBinding(binding: string): (r: Option<Vector>)
    ensures r.None? <==> CleanBinding(binding) == [] || CleanBinding(binding) == "x"
  {
    var hexString := CleanBinding(binding);
    if hexString == [] then None
    else
      var cleaned := StripLeadingX(hexString);
      assert cleaned == [] <==> hexString == "x";
      DecodeBytesNone(cleaned);
      HexToFloats(cleaned)
  }

  // ---------------------------------------------------------------------------------------
  // Hexadecimal digits to bytes

  predicate IsHexDigit(c: char) {
    ('0' <= c <= '9') || ('a' <= c <= 'f') || ('A' <= c <= 'F')
  }

  function HexDigitValue(c: char): (d: nat)
    requires IsHexDigit(c)
    ensures d < 16
  {
    if '0' <= c <= '9' then c as int - '0' as int
    else if 'a' <= c <= 'f' then c as int - 'a' as int + 10
    else c as int - 'A' as int + 10
  }

  /** The longest prefix made of hexadecimal digits. */
  function HexDigitsPrefix(s: string): (z: string)
    ensures forall i :: 0 <= i < |z| ==> IsHexDigit(z[i])
  {
    if s != [] && IsHexDigit(s[0]) then [s[0]] + HexDigitsPrefix(s[1..]) else []
  }

  /** `HexDigitsPrefix(s)` is a prefix of `s` that stops just before the first character
      that is not a hexadecimal digit. */
  lemma {:induction false} HexDigitsPrefixLongest(s: string)
    ensures var z := HexDigitsPrefix(s);
      |z| <= |s| && z == s[..|z|] && (|z| < |s| ==> !IsHexDigit(s[|z|]))
  {
    if s != [] && IsHexDigit(s[0]) {
      HexDigitsPrefixLongest(s[1..]);
      var z := HexDigitsPrefix(s[1..]);
      assert s[..|z| + 1] == [s[0]] + s[1..][..|z|];
    }
  }

  /** The number a string of hexadecimal digits denotes, most significant digit first. */
  function HexValue(z: string): nat
    requires forall i :: 0 <= i < |z| ==> IsHexDigit(z[i])
  {
    if z == [] then 0 else HexValue(z[..|z| - 1]) * 16 + HexDigitValue(z[|z| - 1])
  }

  /** `parseInt(s, 16)`; `None` stands for NaN. Leading whitespace and one sign are skipped,
      then an optional `0x`/`0X`, then the longest run of hexadecimal digits is read; without
      any digit the result is NaN. */
  function ParseIntHex(s: string): Option<int>
  {
    var t := TrimStart(s);
    var negative := t != [] && t[0] == '-';
    var u := if t != [] && (t[0] == '-' || t[0] == '+') then t[1..] else t;
    var w := if |u| >= 2 && u[0] == '0' && (u[1] == 'x' || u[1] == 'X') then u[2..] else u;
    var z := HexDigitsPrefix(w);
    var magnitude: int := HexValue(z);
    if z == [] then None else Some(if negative then -magnitude else magnitude)
  }

  /** The conversion a `Uint8Array` applies to each element it is built from: NaN becomes 0,
      an integer is taken modulo 256. */
  function ToUint8(v: Option<int>): byte
  {
    match v
    case None => 0
    case Some(n) => (n % 256) as byte
  }

  /** The byte a two-digit pair stands for. */
  function PairByte(pair: string): byte
  {
    ToUint8(ParseIntHex(pair))
  }

  /** Without a sign or `0x` prefix, `parseInt` reads the leading hexadecimal digits. */
  lemma ParseIntHexPlain(s: string)
    requires s != [] && IsHexDigit(s[0])
    requires !(|s| >= 2 && s[0] == '0' && (s[1] == 'x' || s[1] == 'X'))
    ensures ParseIntHex(s) == Some(HexValue(HexDigitsPrefix(s)))
  {
    assert TrimStart(s) == s;
    assert s[0] != '-' && s[0] != '+';
    assert HexDigitsPrefix(s) == [s[0]] + HexDigitsPrefix(s[1..]);
  }

  lemma HexValueOfOne(a: char)
    requires IsHexDigit(a)
    ensures HexValue([a]) == HexDigitValue(a)
  {
    assert [a][..0] == [];
  }

  lemma HexValueOfTwo(a: char, b: char)
    requires IsHexDigit(a) && IsHexDigit(b)
    ensures HexValue([a, b]) == 16 * HexDigitValue(a) + HexDigitValue(b)
  {
    assert [a, b][..1] == [a];
    HexValueOfOne(a);
  }

  /** Two hexadecimal digits give the byte they spell. */
  lemma PairByteOfHexDigits(a: char, b: char)
    requires IsHexDigit(a) && IsHexDigit(b)
    ensures PairByte([a, b]) as int == 16 * HexDigitValue(a) + HexDigitValue(b)
  {
    HexDigitsPrefixOfTwo(a, b);
    ParseIntHexPlain([a, b]);
    HexValueOfTwo(a, b);
    ToUint8OfByte(16 * HexDigitValue(a) + HexDigitValue(b));
  }

  lemma HexDigitsPrefixOfTwo(a: char, b: char)
    requires IsHexDigit(a) && IsHexDigit(b)
    ensures HexDigitsPrefix([a, b]) == [a, b]
  {
    assert [a, b][1..] == [b];
    assert HexDigitsPrefix([b]) == [b];
  }

  lemma ToUint8OfByte(n: int)
    requires 0 <= n < 256
    ensures ToUint8(Some(n)) as int == n
  {
  }

  /** A pair whose second character is not a hexadecimal digit does not fail: `parseInt`
      reads the first digit alone (and `0x` reads as NaN, i.e. 0 as well). */
  lemma PairByteOfDigitAndJunk(a: char, b: char)
    requires IsHexDigit(a) && !IsHexDigit(b)
    ensures PairByte([a, b]) as int == HexDigitValue(a)
  {
    var s := [a, b];
    if a == '0' && (b == 'x' || b == 'X') {
      assert TrimStart(s) == s;
      assert HexDigitsPrefix(s[2..]) == [];
    } else {
      assert HexDigitsPrefix(s[1..]) == [];
      assert HexDigitsPrefix(s) == [a];
      ParseIntHexPlain(s);
      HexValueOfOne(a);
    }
  }

  /** A pair starting with a character that is no digit, sign or space reads as NaN, which the
      byte array stores as 0. */
  lemma PairByteOfJunk(a: char, b: char)
    requires !IsHexDigit(a) && !IsJsWhitespace(a) && a != '+' && a != '-'
    ensures PairByte([a, b]) == 0
  {
    var s := [a, b];
    assert TrimStart(s) == s;
  }

  /** `hexString.match(/.{1,2}/g)`: consecutive chunks of two characters (one at the end of a
      run), skipping line terminators, which `.` does not match. */
  function MatchPairs(t: string): (r: seq<string>)
    ensures forall i :: 0 <= i < |r| ==> 1 <= |r[i]| <= 2
  {
    if t == [] then []
    else if IsLineTerminator(t[0]) then MatchPairs(t[1..])
    else if |t| >= 2 && !IsLineTerminator(t[1]) then [t[..2]] + MatchPairs(t[2..])
    else [t[..1]] + MatchPairs(t[1..])
  }

  /** An odd-length text gets one `0` in front. */
  function PadOdd(hex: string): (h: string)
    ensures |h| % 2 == 0
  {
    if |hex| % 2 != 0 then "0" + hex else hex
  }

  /** The bytes of a hexadecimal text; `None` when `match` finds nothing (it then returns
      null, the `.map` call throws and the handler returns null). */
  function DecodeBytes(hex: string): Option<seq<byte>>
  {
    var pairs := MatchPairs(PadOdd(hex));
    if pairs == [] then None else Some(PairBytes(pairs))
  }

  /** The bytes `parseInt` and the byte array make of the matched pairs. */
  function PairBytes(pairs: seq<string>): (b: seq<byte>)
    ensures |b| == |pairs|
  {
    seq(|pairs|, i requires 0 <= i < |pairs| => PairByte(pairs[i]))
  }

  /** Decoding fails exactly for an even-length text made only of line terminators, in
      particular for the empty text. */
  lemma {:induction false} DecodeBytesNone(hex: string)
    ensures DecodeBytes(hex).None?
        <==> |hex| % 2 == 0 && forall i :: 0 <= i < |hex| ==> IsLineTerminator(hex[i])
  {
    var h := PadOdd(hex);
    if |hex| % 2 != 0 {
      assert !IsLineTerminator(h[0]);
    } else {
      MatchPairsEmpty(h);
    }
  }

  lemma {:induction false} MatchPairsEmpty(t: string)
    ensures MatchPairs(t) == [] <==> forall i :: 0 <= i < |t| ==> IsLineTerminator(t[i])
  {
    if t != [] && IsLineTerminator(t[0]) {
      MatchPairsEmpty(t[1..]);
      if forall i :: 0 <= i < |t| - 1 ==> IsLineTerminator(t[1..][i]) {
        forall i | 0 <= i < |t| ensures IsLineTerminator(t[i]) {
          if i > 0 { assert t[i] == t[1..][i - 1]; }
        }
      }
    }
  }

  /** Without line terminators, an even-length text splits into its consecutive pairs. */
  lemma {:induction false} MatchPairsEven(t: string)
    requires |t| % 2 == 0
    requires forall i :: 0 <= i < |t| ==> !IsLineTerminator(t[i])
    ensures |MatchPairs(t)| == |t| / 2
    ensures forall i :: 0 <= i < |t| / 2 ==> MatchPairs(t)[i] == t[2 * i..2 * i + 2]
  {
    if t != [] {
      MatchPairsEven(t[2..]);
      forall i | 1 <= i < |t| / 2
        ensures MatchPairs(t)[i] == t[2 * i..2 * i + 2]
      {
        assert MatchPairs(t)[i] == MatchPairs(t[2..])[i - 1];
        assert t[2..][2 * (i - 1)..2 * (i - 1) + 2] == t[2 * i..2 * i + 2];
      }
    }
  }

  /** For a text of `n` hexadecimal digits there are ceil(n/2) bytes, and byte `i` is the
      value of the `i`-th pair after the odd-length padding. */
  lemma DecodeBytesOfHexDigits(hex: string)
    requires hex != []
    requires forall i :: 0 <= i < |hex| ==> IsHexDigit(hex[i])
    ensures DecodeBytes(hex).Some?
    ensures |DecodeBytes(hex).value| == (|hex| + 1) / 2
    ensures forall i :: 0 <= i < |DecodeBytes(hex).value| ==>
      DecodeBytes(hex).value[i] as int
        == 16 * HexDigitValue(PadOdd(hex)[2 * i]) + HexDigitValue(PadOdd(hex)[2 * i + 1])
  {
    var h := PadOdd(hex);
    assert forall i :: 0 <= i < |h| ==> IsHexDigit(h[i]) by {
      forall i | 0 <= i < |h| ensures IsHexDigit(h[i]) {
        if |hex| % 2 != 0 && i > 0 { assert h[i] == hex[i - 1]; }
      }
    }
    MatchPairsEven(h);
    var pairs := MatchPairs(h);
    forall i | 0 <= i < |pairs|
      ensures PairByte(pairs[i]) as int == 16 * HexDigitValue(h[2 * i]) + HexDigitValue(h[2 * i + 1])
    {
      assert pairs[i] == [h[2 * i], h[2 * i + 1]];
      PairByteOfHexDigits(h[2 * i], h[2 * i + 1]);
    }
  }

  // ---------------------------------------------------------------------------------------
  // Bytes to floats

  /** The byte length rounded up to a multiple of four: `Math.ceil(n / 4) * 4`. */
  function PaddedLength(n: nat): (m: nat)
    ensures m % 4 == 0 && n <= m < n + 4
    ensures n % 4 == 0 ==> m == n
  {
    (n + 3) / 4 * 4
  }

  /** The byte array after the padding step: the original bytes, then zeros up to the next
      multiple of four. */
  function PadTo4(b: seq<byte>): (r: seq<byte>)
    ensures |r| == PaddedLength(|b|) && r[..|b|] == b
    ensures forall i :: |b| <= i < |r| ==> r[i] == 0
    ensures |b| % 4 == 0 ==> r == b
  {
    b + seq(PaddedLength(|b|) - |b|, _ => 0)
  }

  /** `new Float32Array(bytes.buffer)`: every four consecutive bytes form one float. */
  function ToFloats(b: seq<byte>): (f: Vector)
    requires |b| % 4 == 0
    ensures |f| == |b| / 4
  {
    seq(|b| / 4, k requires 0 <= k < |b| / 4 => Float32(b[4 * k], b[4 * k + 1], b[4 * k + 2], b[4 * k + 3]))
  }

  /** What `hexStringToFloatArray` returns for a text. */
  function HexToFloats(hex: string): (r: Option<Vector>)
    ensures r.Some? <==> DecodeBytes(hex).Some?
    ensures r.Some? ==> |r.value| == PaddedLength(|DecodeBytes(hex).value|) / 4
  {
    match DecodeBytes(hex)
    case None => None
    case Some(bytes) => Some(ToFloats(PadTo4(bytes)))
  }

  /** `hexStringToFloatArray`: pad an odd-length text, parse the pairs into a byte array,
      copy it into a zeroed array of padded length when needed, and view the bytes as
      floats. */
  method HexStringToFloatArray(hexString: string) returns (r: Option<Vector>)
    ensures r == HexToFloats(hexString)
  {
    var hex := hexString;
    if |hex| % 2 != 0 {
      hex := "0" + hex;
    }
    var pairs := MatchPairs(hex);
    if pairs == [] {
      // `match` returned null: mapping over it throws, and the handler returns null
      return None;
    }
    var byteArray := new byte[|pairs|](i requires 0 <= i < |pairs| => PairByte(pairs[i]));
    ghost var bytes := byteArray[..];
    assert hex == PadOdd(hexString);
    assert bytes == PairBytes(pairs);
    if byteArray.Length % 4 != 0 {
      var paddedArray := new byte[PaddedLength(byteArray.Length)](_ => 0);
      // paddedArray.set(byteArray)
      forall i | 0 <= i < byteArray.Length {
        paddedArray[i] := byteArray[i];
      }
      byteArray := paddedArray;
    }
    assert byteArray[..] == PadTo4(bytes);
    var n := byteArray.Length / 4;
    var floatArray := new Float32[n](k requires 0 <= k < n reads byteArray =>
      Float32(byteArray[4 * k], byteArray[4 * k + 1], byteArray[4 * k + 2], byteArray[4 * k + 3]));
    assert floatArray[..] == ToFloats(PadTo4(bytes));
    r := Some(floatArray[..]);
  }

  // ---------------------------------------------------------------------------------------
  // Round trip with the encoding the stored vectors were written in

  function ByteAt(f: Float32, j: nat): byte
    requires j < 4
  {
    if j == 0 then f.b0 else if j == 1 then f.b1 else if j == 2 then f.b2 else f.b3
  }

  /** Lower-case hexadecimal digit of a value below 16. */
  function HexChar(d: nat): (c: char)
    requires d < 16
    ensures IsHexDigit(c) && HexDigitValue(c) == d && c != 'x'
  {
    if d < 10 then ('0' as int + d) as char else ('a' as int + d - 10) as char
  }

  /** The hexadecimal text of a vector: two lower-case digits per byte, four bytes per float,
      in buffer order. */
  function EncodeHex(fs: Vector): (s: string)
    ensures |s| == 8 * |fs|
  {
    seq(8 * |fs|, i requires 0 <= i < 8 * |fs| =>
      var b := ByteAt(fs[i / 8], (i / 2) % 4) as nat;
      HexChar(if i % 2 == 0 then b / 16 else b % 16))
  }

  /** The bytes of a vector, four per float, in buffer order. */
  function FloatBytes(fs: Vector): (b: seq<byte>)
    ensures |b| == 4 * |fs|
  {
    seq(4 * |fs|, i requires 0 <= i < 4 * |fs| => ByteAt(fs[i / 4], i % 4))
  }

  lemma EncodeHexAt(fs: Vector, i: nat)
    requires i < 4 * |fs|
    ensures EncodeHex(fs)[2 * i] == HexChar(ByteAt(fs[i / 4], i % 4) as nat / 16)
    ensures EncodeHex(fs)[2 * i + 1] == HexChar(ByteAt(fs[i / 4], i % 4) as nat % 16)
  {
    assert (2 * i) / 8 == i / 4 && (2 * i + 1) / 8 == i / 4;
    assert ((2 * i) / 2) % 4 == i % 4 && ((2 * i + 1) / 2) % 4 == i % 4;
  }

  /** The hexadecimal text of a vector decodes to the vector's bytes. */
  lemma DecodeBytesOfEncodeHex(fs: Vector)
    requires fs != []
    ensures DecodeBytes(EncodeHex(fs)) == Some(FloatBytes(fs))
  {
    var s := EncodeHex(fs);
    assert forall i :: 0 <= i < |s| ==> IsHexDigit(s[i]);
    DecodeBytesOfHexDigits(s);
    assert PadOdd(s) == s;
    var bytes := DecodeBytes(s).value;
    assert |bytes| == 4 * |fs|;
    forall i | 0 <= i < |bytes|
      ensures bytes[i] == FloatBytes(fs)[i]
    {
      EncodeHexAt(fs, i);
      var b := ByteAt(fs[i / 4], i % 4) as nat;
      assert bytes[i] as int == 16 * (b / 16) + b % 16;
    }
    assert bytes == FloatBytes(fs);
  }

  /** Viewing a vector's bytes as floats gives the vector back. */
  lemma ToFloatsOfFloatBytes(fs: Vector)
    ensures ToFloats(FloatBytes(fs)) == fs
  {
    var b := FloatBytes(fs);
    forall k | 0 <= k < |fs|
      ensures ToFloats(b)[k] == fs[k]
    {
      assert (4 * k) / 4 == k && (4 * k + 1) / 4 == k && (4 * k + 2) / 4 == k && (4 * k + 3) / 4 == k;
      assert (4 * k) % 4 == 0 && (4 * k + 1) % 4 == 1 && (4 * k + 2) % 4 == 2 && (4 * k + 3) % 4 == 3;
    }
  }

  /** Decoding the hexadecimal text of a non-empty vector gives the vector back. */
  lemma HexToFloatsOfEncodeHex(fs: Vector)
    requires fs != []
    ensures HexToFloats(EncodeHex(fs)) == Some(fs)
  {
    DecodeBytesOfEncodeHex(fs);
    ToFloatsOfFloatBytes(fs);
  }

  /** Cleaning the wrapped form `Optional(x'<hex>')` of a hexadecimal text leaves the text. */
  lemma CleanBindingOfWrapped(e: string)
    requires forall i :: 0 <= i < |e| ==> IsHexDigit(e[i])
    ensures CleanBinding(OptionalPrefix + e + "')") == e
  {
    UnwrapPrefix(e);
    UnwrapClosing(e);
    StripWhitespaceClean(e);
  }

  lemma UnwrapPrefix(e: string)
    ensures RemoveFirst(OptionalPrefix + e + "')", OptionalPrefix) == e + "')"
  {
    var blob := OptionalPrefix + e + "')";
    assert blob[..|OptionalPrefix|] == OptionalPrefix;
    assert blob[|OptionalPrefix|..] == e + "')";
  }

  lemma UnwrapClosing(e: string)
    requires forall i :: 0 <= i < |e| ==> IsHexDigit(e[i])
    ensures RemoveClosing(e + "')") == e
  {
    var rest := e + "')";
    RemoveClosingAt(rest, |e| + 1);
    assert rest[..|e|] == e && rest[|e| + 2..] == [];
  }

  /** A stored blob in its wrapped form `Optional(x'<hex>')` decodes to the vector it
      encodes. */
  lemma ProcessEmbeddingBindingOfWrapped(fs: Vector)
    requires fs != []
    ensures ProcessEmbeddingBinding(OptionalPrefix + EncodeHex(fs) + "')") == Some(fs)
  {
    var e := EncodeHex(fs);
    CleanBindingOfWrapped(e);
    assert StripLeadingX(e) == e;
    HexToFloatsOfEncodeHex(fs);
  }

  /** An odd-length hexadecimal text decodes as if it had a `0` in front: its first digit
      alone is the first byte, and every later byte is the pair of digits after it. */
  lemma OddLengthDecodesAsZeroPadded(hex: string)
    requires |hex| % 2 != 0
    requires forall i :: 0 <= i < |hex| ==> IsHexDigit(hex[i])
    ensures DecodeBytes(hex).Some? && |DecodeBytes(hex).value| == (|hex| + 1) / 2
    ensures DecodeBytes(hex).value[0] as int == HexDigitValue(hex[0])
    ensures forall i :: 1 <= i < |DecodeBytes(hex).value| ==>
      DecodeBytes(hex).value[i] as int == 16 * HexDigitValue(hex[2 * i - 1]) + HexDigitValue(hex[2 * i])
  {
    DecodeBytesOfHexDigits(hex);
    var padded := PadOdd(hex);
    assert padded == "0" + hex;
    assert forall k :: 1 <= k < |padded| ==> padded[k] == hex[k - 1];
  }
}

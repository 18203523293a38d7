/** The base64 codec, whose loops move bits through a 32-bit accumulator. */
module Base64 {
  import opened Bytes
  import opened BitStream
  import opened Sequences

  /** What the functions return, or throw, or abort with; `OutOfBounds` stands for a write behind the end of a string,
      which has no defined meaning. */
  datatype Result<+T> = Ok(value: T) | LengthError | AssertionFailed | InvalidArgument | OutOfBounds

  const MAX_SIZE: nat := 0xFFFF_FFFF_FFFF_FFFF

  /** Sums, products and differences of `size_t`. */
  function Wrapped(n: int): nat { n % (MAX_SIZE + 1) }

  /** A shift to the left in `unsigned int`. */
  function ShiftLeft(v: nat, n: nat): nat { v * Power2(n) % Power2(32) }

  type sextet = v: nat | v < 64

  /** The alphabet of section 4 of RFC 4648. */
  const ALPHABET: string := "ABCDEFGHIJKLMNOPQRSTUVWXYZ" + "abcdefghijklmnopqrstuvwxyz" + "0123456789+/"

  /** The character for a value. */
  function Table(v: sextet): char {
    if v < 26 then ('A' as int + v) as char
    else if v < 52 then ('a' as int + (v - 26)) as char
    else if v < 62 then ('0' as int + (v - 52)) as char
    else if v == 62 then '+'
    else '/'
  }

  /** The value of a character of the alphabet; 64 for any other character. */
  function ReverseTable(c: char): nat
    requires c as int <= 127
  {
    if 'A' <= c <= 'Z' then c as int - 'A' as int
    else if 'a' <= c <= 'z' then c as int - 'a' as int + 26
    else if '0' <= c <= '9' then c as int - '0' as int + 52
    else if c == '+' then 62
    else if c == '/' then 63
    else 64
  }

  /** `isspace` of the C locale. */
  predicate IsSpace(c: char) {
    c == ' ' || 9 <= c as int <= 13
  }

  // ---------------------------------------------------------------------------
  // What encoding means
  // ---------------------------------------------------------------------------

  function Text(sextets: seq<sextet>): (s: string)
    ensures |s| == |sextets|
  {
    if sextets == [] then [] else Text(sextets[..|sextets| - 1]) + [Table(sextets[|sextets| - 1])]
  }

  lemma SextetsFit(bits: seq<bool>)
    ensures forall i :: 0 <= i < |Filled(bits, 6)| ==> Filled(bits, 6)[i] < 64
  {
    var k := FilledBits(bits, 6);
    assert Power2(6) == 64;
    hide Filled;
    assert Fits(Filled(bits, 6), 6);
  }

  /** The bit stream of the data in groups of six, the last one filled up with zeros. */
  function Sextets(data: seq<uint8>): (r: seq<sextet>)
    ensures r == Filled(Flatten(data, 8), 6)
  {
    SextetsFit(Flatten(data, 8));
    Filled(Flatten(data, 8), 6)
  }

  function Equals(n: nat): (s: string)
    ensures |s| == n
  {
    seq(n, _ => '=')
  }

  /** The padding that is written, and the one of the standard. */
  function Padding(n: nat): (p: nat)
    ensures p <= 1
  {
    if n % 3 == 1 then 0 else 1
  }

  function StandardPadding(n: nat): nat { (3 - n % 3) % 3 }

  /** The text that is returned for data that is not empty: the size of the string leaves room for one padding
      character or for none. */
  function Encoded(data: seq<uint8>): string {
    Text(Sextets(data)) + Equals(Padding(|data|))
  }

  /** The four groups of six bits of three octets. */
  function FirstSix(a: uint8): sextet { a / 4 }

  function SecondSix(a: uint8, b: uint8): sextet { a % 4 * 16 + b / 16 }

  function ThirdSix(b: uint8, c: uint8): sextet { b % 16 * 4 + c / 64 }

  function FourthSix(c: uint8): sextet { c % 64 }

  /** Section 4 of RFC 4648: 24 bits at a time, the end padded to four characters. */
  function Standard(data: seq<uint8>): string {
    if data == [] then []
    else if |data| == 1 then [Table(FirstSix(data[0])), Table(SecondSix(data[0], 0)), '=', '=']
    else if |data| == 2 then
      [Table(FirstSix(data[0])), Table(SecondSix(data[0], data[1])), Table(ThirdSix(data[1], 0)), '=']
    else
      [Table(FirstSix(data[0])), Table(SecondSix(data[0], data[1])), Table(ThirdSix(data[1], data[2])),
       Table(FourthSix(data[2]))]
      + Standard(data[3..])
  }

  // ---------------------------------------------------------------------------
  // Encoding
  // ---------------------------------------------------------------------------

  lemma OctetsFit(data: seq<uint8>)
    ensures Fits(data, 8)
  {
    assert Power2(8) == 256;
  }

  lemma SextetsFit6(sextets: seq<sextet>)
    ensures Fits(sextets, 6)
  {
    assert Power2(6) == 64;
  }

  lemma UnsignedInt()
    ensures Power2(8) == 256 && Power2(32) == 0x1_0000_0000
  {
    assert Power2(8) == 256;
    assert Power2(16) == 0x1_0000;
    assert Power2(24) == 0x100_0000;
  }

  /** A byte enters the accumulator. */
  lemma ByteIn(acc: nat, b: uint8, bits: nat)
    requires bits <= 24
    ensures BitsOf((acc * 256 + b) % 0x1_0000_0000, bits + 8) == BitsOf(acc, bits) + BitsOf(b, 8)
  {
    UnsignedInt();
    hide BitsOf, Power2;
    PushBits(acc, b, 8, bits, 32);
  }

  /** The upper six bits leave it. */
  lemma SextetOut(acc: nat, bits: nat)
    ensures BitsOf(acc, 6 + bits) == BitsOf(ShiftRight(acc, bits) % 64, 6) + BitsOf(acc, bits)
  {
    assert Power2(6) == 64;
    hide BitsOf, Power2;
    TakeBits(acc, 6, bits);
  }

  lemma PositivePower(n: nat)
    ensures 0 < Power2(n)
  {}

  /** The trailing bits, filled up with zeros. */
  lemma LastSextet(acc: nat, bits: nat)
    requires bits <= 6
    ensures BitsOf(ShiftLeft(acc, 6 - bits) % 64, 6) == BitsOf(acc, bits) + Zeros(6 - bits)
  {
    assert Power2(6) == 64;
    PositivePower(6 - bits);
    hide BitsOf, Power2, Zeros;
    PushBits(acc, 0, 6 - bits, bits, 32);
    ZeroBits(6 - bits);
    BitsWrap(ShiftLeft(acc, 6 - bits), 6, 6);
  }

  lemma TextMore(sextets: seq<sextet>, v: sextet)
    ensures Text(sextets + [v]) == Text(sextets) + [Table(v)]
  {
    assert (sextets + [v])[..|sextets|] == sextets;
  }

  /** What has been written: the text, then padding. */
  ghost predicate Written(retval: array<char>, out: seq<sextet>)
    reads retval
  {
    && |out| <= retval.Length
    && retval[..|out|] == Text(out) && retval[|out|..] == Equals(retval.Length - |out|)
  }

  /** The next character goes to its place. */
  method Put(retval: array<char>, outpos: nat, ghost out: seq<sextet>, v: sextet)
    requires outpos < retval.Length && |out| == outpos && Written(retval, out)
    modifies retval
    ensures Written(retval, out + [v])
  {
    TextMore(out, v);
    ghost var before := retval[..];
    retval[outpos] := Table(v);
    assert retval[..outpos] == before[..outpos];
    assert retval[outpos + 1..] == before[outpos..][1..];
  }

  lemma WrittenFits(retval: array<char>, out: seq<sextet>)
    requires Written(retval, out)
    ensures |out| <= retval.Length
  {}

  /** One round of the encoder: `bits` are those of all the bytes so far. */
  method EncodeByte(retval: array<char>, b: uint8, outpos0: nat, bitsCollected0: nat, accumulator0: nat,
                    ghost out0: seq<sextet>, ghost bits: seq<bool>)
    returns (ok: bool, outpos: nat, bitsCollected: nat, accumulator: nat, ghost out: seq<sextet>)
    requires bitsCollected0 < 6
    requires |out0| == outpos0 && Written(retval, out0)
    requires bits == Flatten(out0, 6) + BitsOf(accumulator0, bitsCollected0)
    modifies retval
    ensures !ok ==> 6 * retval.Length + 6 <= 6 * outpos0 + bitsCollected0 + 8
    ensures ok ==>
              && bitsCollected < 6 && 6 * outpos + bitsCollected == 6 * outpos0 + bitsCollected0 + 8
              && |out| == outpos && Written(retval, out)
              && bits + BitsOf(b, 8) == Flatten(out, 6) + BitsOf(accumulator, bitsCollected)
  {
    hide *;
    ok, outpos, bitsCollected, out := true, outpos0, bitsCollected0, out0;
    ByteIn(accumulator0, b, bitsCollected);
    Associative(Flatten(out, 6), BitsOf(accumulator0, bitsCollected), BitsOf(b, 8));
    accumulator := (accumulator0 * 256 + b) % 0x1_0000_0000;
    bitsCollected := bitsCollected + 8;
    WrittenFits(retval, out);
    while bitsCollected >= 6
      invariant 6 * outpos + bitsCollected == 6 * outpos0 + bitsCollected0 + 8
      invariant |out| == outpos <= retval.Length && Written(retval, out)
      invariant bits + BitsOf(b, 8) == Flatten(out, 6) + BitsOf(accumulator, bitsCollected)
    {
      bitsCollected := bitsCollected - 6;
      if outpos >= retval.Length {
        ok := false;
        return;
      }
      ghost var v := ShiftRight(accumulator, bitsCollected) % 64;
      SextetOut(accumulator, bitsCollected);
      FlattenMore(out, v, 6);
      Associative(Flatten(out, 6), BitsOf(v, 6), BitsOf(accumulator, bitsCollected));
      Put(retval, outpos, out, ShiftRight(accumulator, bitsCollected) % 64);
      outpos, out := outpos + 1, out + [v];
    }
  }

  lemma NoBits(a: seq<bool>, b: seq<bool>)
    requires b == []
    ensures a + b == a == a + Zeros(0)
  {}

  /** The character for the trailing bits, if there are any. */
  method EncodeTail(retval: array<char>, outpos0: nat, bitsCollected: nat, accumulator: nat,
                    ghost out0: seq<sextet>, ghost data: seq<uint8>)
    returns (outpos: nat)
    requires bitsCollected < 6 && 6 * outpos0 + bitsCollected == 8 * |data|
    requires retval.Length == (|data| + 1) * 4 / 3
    requires |out0| == outpos0 && Written(retval, out0)
    requires Flatten(data, 8) == Flatten(out0, 6) + BitsOf(accumulator, bitsCollected)
    modifies retval
    ensures Written(retval, Sextets(data)) && outpos == |Sextets(data)|
    ensures outpos == retval.Length - Padding(|data|)
  {
    hide Written, Flatten, BitsOf, Filled, Zeros, ShiftLeft;
    outpos := outpos0;
    SextetsFit6(out0);
    if bitsCollected > 0 {
      assert bitsCollected < 6;
      LastSextet(accumulator, bitsCollected);
      ghost var v := ShiftLeft(accumulator, 6 - bitsCollected) % 64;
      FlattenMore(out0, v, 6);
      Associative(Flatten(out0, 6), BitsOf(accumulator, bitsCollected), Zeros(6 - bitsCollected));
      SextetsFit6(out0 + [v]);
      FilledIs(out0 + [v], Flatten(data, 8), 6 - bitsCollected, 6);
      Put(retval, outpos, out0, ShiftLeft(accumulator, 6 - bitsCollected) % 64);
      outpos := outpos + 1;
    } else {
      NoBits(Flatten(out0, 6), BitsOf(accumulator, 0));
      FilledIs(out0, Flatten(data, 8), 0, 6);
    }
  }

  /** The size of the string has room for all the bits, and no more than one character more, unless it wraps; then it
      has not. */
  lemma Limits(binlen: nat)
    ensures binlen > MAX_SIZE / 4 * 3 <==> binlen > 0xBFFF_FFFF_FFFF_FFFD
    ensures (binlen + 1) * 4 > MAX_SIZE <==> binlen >= 0x3FFF_FFFF_FFFF_FFFF
    ensures var size := Wrapped((binlen + 1) * 4) / 3;
            if (binlen + 1) * 4 <= MAX_SIZE then
              && size == (binlen + 1) * 4 / 3 && 6 * size >= 8 * binlen + 4
              && Wrapped(size - 2) == (if binlen == 0 then MAX_SIZE else size - 2)
            else 6 * size + 6 < 8 * binlen
  {
    var n := (binlen + 1) * 4;
    assert MAX_SIZE / 4 * 3 == 0xBFFF_FFFF_FFFF_FFFD;
    if n <= MAX_SIZE {
      assert Wrapped(n) == n;
    } else {
      assert Wrapped(n) <= n - (MAX_SIZE + 1);
    }
  }

  lemma NothingWritten(retval: array<char>, data: seq<uint8>)
    requires forall k :: 0 <= k < retval.Length ==> retval[k] == '='
    ensures Written(retval, []) && Flatten(data[..0], 8) == Flatten([], 6) + BitsOf(0, 0)
  {}

  lemma WrittenIs(retval: array<char>, data: seq<uint8>)
    requires Written(retval, Sextets(data))
    requires |Sextets(data)| == retval.Length - Padding(|data|)
    ensures retval[..] == Encoded(data)
  {
    var n := |Sextets(data)|;
    assert retval[..] == retval[..n] + retval[n..];
  }

  /** Fails on a length that is too large; the closing assertion fails on empty data, where the subtraction wraps.
      Otherwise the text is that of the data's bit stream, and every write stays inside the string, exactly when the
      product in the size of the string does not wrap. */
  method Encode(bindata: array<uint8>, binlen: nat) returns (r: Result<string>)
    requires binlen <= bindata.Length
    ensures r == if binlen == 0 then AssertionFailed
                 else if binlen < 0x3FFF_FFFF_FFFF_FFFF then Ok(Encoded(bindata[..binlen]))
                 else if binlen <= 0xBFFF_FFFF_FFFF_FFFD then OutOfBounds
                 else LengthError
  {
    hide *;
    Limits(binlen);
    if binlen > MAX_SIZE / 4 * 3 {
      return LengthError;
    }
    var retval := new char[Wrapped((binlen + 1) * 4) / 3](_ => '=');
    ghost var data, out: seq<sextet> := bindata[..binlen], [];
    var ok, outpos: nat, bitsCollected: nat, accumulator: nat := true, 0, 0, 0;
    NothingWritten(retval, data);
    var i := 0;
    while i != binlen
      invariant i <= binlen
      invariant 6 * outpos + bitsCollected == 8 * i && bitsCollected < 6
      invariant |out| == outpos && Written(retval, out)
      invariant Flatten(data[..i], 8) == Flatten(out, 6) + BitsOf(accumulator, bitsCollected)
    {
      FlattenMore(data[..i], bindata[i], 8);
      assert data[..i] + [bindata[i]] == data[..i + 1];
      ok, outpos, bitsCollected, accumulator, out :=
        EncodeByte(retval, bindata[i], outpos, bitsCollected, accumulator, out, Flatten(data[..i], 8));
      if !ok {
        return OutOfBounds;
      }
      i := i + 1;
    }
    WrittenFits(retval, out);
    assert data[..i] == data;
    outpos := EncodeTail(retval, outpos, bitsCollected, accumulator, out, data);
    if !(outpos >= Wrapped(retval.Length - 2)) {
      return AssertionFailed;
    }
    assert outpos <= retval.Length;
    WrittenIs(retval, data);
    return Ok(retval[..]);
  }

  // ---------------------------------------------------------------------------
  // What decoding means
  // ---------------------------------------------------------------------------

  /** White space and padding are skipped wherever they stand. */
  predicate Skipped(c: char) { IsSpace(c) || c == '=' }

  predicate Legal(c: char) { c as int <= 127 && ReverseTable(c) <= 63 }

  /** The text without what is skipped. */
  function Kept(text: string): string {
    if text == [] then []
    else Kept(text[..|text| - 1]) + if Skipped(text[|text| - 1]) then [] else [text[|text| - 1]]
  }

  /** The values of the characters, up to the first one that is not in the alphabet. */
  function Values(text: string): (r: seq<sextet>)
    requires forall i :: 0 <= i < |text| ==> Legal(text[i])
    ensures |r| == |text|
  {
    if text == [] then []
    else
      assert Legal(text[|text| - 1]);
      Values(text[..|text| - 1]) + [ReverseTable(text[|text| - 1])]
  }

  ghost predicate AllLegal(text: string) {
    forall i :: 0 <= i < |text| ==> Legal(text[i])
  }

  /** Refused when a character that is not skipped is not in the alphabet; otherwise the values are one bit stream,
      in groups of eight, and what is left over is dropped. */
  ghost function Decoded(text: string): Result<seq<nat>> {
    if AllLegal(Kept(text)) then Ok(Dropped(Flatten(Values(Kept(text)), 6), 8)) else InvalidArgument
  }

  // ---------------------------------------------------------------------------
  // Decoding
  // ---------------------------------------------------------------------------

  /** A sextet enters the accumulator. */
  lemma SextetIn(acc: nat, v: sextet, bits: nat)
    requires bits <= 26
    ensures BitsOf((acc * 64 + v) % 0x1_0000_0000, bits + 6) == BitsOf(acc, bits) + BitsOf(v, 6)
  {
    UnsignedInt();
    assert Power2(6) == 64;
    hide BitsOf, Power2;
    PushBits(acc, v, 6, bits, 32);
  }

  /** The upper eight bits leave it. */
  lemma ByteOut(acc: nat, bits: nat)
    ensures BitsOf(acc, 8 + bits) == BitsOf(ShiftRight(acc, bits) % 256, 8) + BitsOf(acc, bits)
  {
    assert Power2(8) == 256;
    hide BitsOf, Power2;
    TakeBits(acc, 8, bits);
  }

  lemma KeptMore(text: string, c: char)
    ensures Kept(text + [c]) == if Skipped(c) then Kept(text) else Kept(text) + [c]
  {
    assert (text + [c])[..|text|] == text;
  }

  lemma ValuesMore(text: string, c: char)
    requires AllLegal(text) && Legal(c)
    ensures AllLegal(text + [c]) && Values(text + [c]) == Values(text) + [ReverseTable(c)]
  {
    assert (text + [c])[..|text|] == text;
  }

  /** One round of the decoder: `bits` are those of all the characters so far. */
  method DecodeSextet(retval0: seq<uint8>, v: sextet, bitsCollected0: nat, accumulator0: nat, ghost bits: seq<bool>)
    returns (retval: seq<uint8>, bitsCollected: nat, accumulator: nat)
    requires bitsCollected0 < 8 && bits == Flatten(retval0, 8) + BitsOf(accumulator0, bitsCollected0)
    ensures bitsCollected < 8 && bits + BitsOf(v, 6) == Flatten(retval, 8) + BitsOf(accumulator, bitsCollected)
  {
    hide *;
    retval, bitsCollected := retval0, bitsCollected0;
    SextetIn(accumulator0, v, bitsCollected);
    Associative(Flatten(retval, 8), BitsOf(accumulator0, bitsCollected), BitsOf(v, 6));
    accumulator := (accumulator0 * 64 + v) % 0x1_0000_0000;
    bitsCollected := bitsCollected + 6;
    if bitsCollected >= 8 {
      bitsCollected := bitsCollected - 8;
      ghost var b := ShiftRight(accumulator, bitsCollected) % 256;
      ByteOut(accumulator, bitsCollected);
      FlattenMore(retval, b, 8);
      Associative(Flatten(retval, 8), BitsOf(b, 8), BitsOf(accumulator, bitsCollected));
      retval := retval + [ShiftRight(accumulator, bitsCollected) % 256];
    }
  }

  lemma EmptyStream()
    ensures Kept([]) == [] && Flatten(Values([]), 6) == Flatten([], 8) + BitsOf(0, 0)
  {}

  lemma {:induction false} KeptConcat(a: string, b: string)
    ensures Kept(a + b) == Kept(a) + Kept(b)
  {
    if b == [] {
      assert a + b == a;
    } else {
      var front, last := b[..|b| - 1], b[|b| - 1];
      assert a + b == (a + front) + [last] && b == front + [last];
      KeptConcat(a, front);
      KeptMore(a + front, last);
      KeptMore(front, last);
    }
  }

  lemma RefusedHere(text: string, n: nat)
    requires n <= |text| && !AllLegal(Kept(text[..n]))
    ensures !AllLegal(Kept(text))
  {
    assert text == text[..n] + text[n..];
    KeptConcat(text[..n], text[n..]);
    var front, all := Kept(text[..n]), Kept(text);
    var i :| 0 <= i < |front| && !Legal(front[i]);
    assert all[i] == front[i];
  }

  method Decode(ascdata: string) returns (r: Result<seq<uint8>>)
    ensures r == Decoded(ascdata)
  {
    hide Kept, Values, Flatten, BitsOf, Dropped, ReverseTable, Skipped;
    var retval: seq<uint8>, bitsCollected: nat, accumulator: nat := [], 0, 0;
    EmptyStream();
    var i := 0;
    while i != |ascdata|
      invariant i <= |ascdata| && AllLegal(Kept(ascdata[..i])) && bitsCollected < 8
      invariant Flatten(Values(Kept(ascdata[..i])), 6) == Flatten(retval, 8) + BitsOf(accumulator, bitsCollected)
    {
      var c := ascdata[i];
      ghost var before, text := Kept(ascdata[..i]), Kept(ascdata[..i + 1]);
      assert ascdata[..i] + [c] == ascdata[..i + 1];
      KeptMore(ascdata[..i], c);
      i := i + 1;
      if Skipped(c) {
        continue;
      }
      if c as int > 127 || ReverseTable(c) > 63 {
        assert text[|before|] == c;
        RefusedHere(ascdata, i);
        return InvalidArgument;
      }
      ValuesMore(before, c);
      FlattenMore(Values(before), ReverseTable(c), 6);
      retval, bitsCollected, accumulator :=
        DecodeSextet(retval, ReverseTable(c), bitsCollected, accumulator, Flatten(Values(before), 6));
    }
    assert ascdata[..i] == ascdata;
    OctetsFit(retval);
    DroppedIs(retval, BitsOf(accumulator, bitsCollected), 8);
    return Ok(retval);
  }

  // ---------------------------------------------------------------------------
  // Both together
  // ---------------------------------------------------------------------------

  lemma {:induction false} NothingKept(skip: string)
    requires forall i :: 0 <= i < |skip| ==> Skipped(skip[i])
    ensures Kept(skip) == []
  {
    if skip == [] {
    } else {
      NothingKept(skip[..|skip| - 1]);
    }
  }

  /** Tab, line feed, vertical tab, form feed, carriage return, blank and the equals sign. */
  lemma SkippedIs(c: char)
    ensures Skipped(c) <==> c as int in {9, 10, 11, 12, 13, 32, 61}
  {}

  /** White space and padding may be inserted anywhere. */
  lemma SkippedUnobservable(a: string, skip: string, b: string)
    requires forall i :: 0 <= i < |skip| ==> skip[i] as int in {9, 10, 11, 12, 13, 32, 61}
    ensures Decoded(a + skip + b) == Decoded(a + b)
  {
    forall i | 0 <= i < |skip|
      ensures Skipped(skip[i])
    {
      SkippedIs(skip[i]);
    }
    KeptConcat(a + skip, b);
    KeptConcat(a, skip);
    KeptConcat(a, b);
    NothingKept(skip);
    assert Kept(a) + [] == Kept(a);
  }

  /** The first table is the alphabet. */
  lemma TableIs(v: sextet)
    ensures |ALPHABET| == 64 && Table(v) == ALPHABET[v]
  {}

  /** The tables are inverse to each other, and the alphabet contains nothing that is skipped. */
  lemma TablesInverse(v: sextet)
    ensures Legal(Table(v)) && !Skipped(Table(v)) && ReverseTable(Table(v)) == v
  {}

  /** The second table knows the characters of the alphabet and no others. */
  lemma LegalIs(c: char)
    ensures Legal(c) <==> c in ALPHABET
    ensures Legal(c) ==> Table(ReverseTable(c)) == c
  {
    if Legal(c) {
      TableIs(ReverseTable(c));
    }
    if c in ALPHABET {
      TableIs(0);
      var i :| 0 <= i < |ALPHABET| && ALPHABET[i] == c;
      TableIs(i);
      TablesInverse(i);
    }
  }

  lemma LegalMore(text: string, c: char)
    ensures AllLegal(text + [c]) <==> AllLegal(text) && Legal(c)
  {
    hide Legal;
    assert (text + [c])[|text|] == c;
    assert forall i :: 0 <= i < |text| ==> (text + [c])[i] == text[i];
  }

  lemma {:induction false} KeptLegal(text: string)
    ensures AllLegal(Kept(text)) <==> forall i :: 0 <= i < |text| ==> Skipped(text[i]) || Legal(text[i])
  {
    hide Legal, Skipped;
    if text != [] {
      var front, last := text[..|text| - 1], text[|text| - 1];
      assert text == front + [last];
      KeptLegal(front);
      KeptMore(front, last);
      LegalMore(Kept(front), last);
      assert forall i :: 0 <= i < |front| ==> text[i] == front[i];
    }
  }

  /** A text is refused exactly when it contains any other character. */
  lemma RefusedIff(text: string)
    ensures Decoded(text) == InvalidArgument <==>
            exists i :: 0 <= i < |text| && text[i] !in ALPHABET && text[i] as int !in {9, 10, 11, 12, 13, 32, 61}
  {
    hide Legal, Skipped, Values, Flatten, Dropped, Kept;
    KeptLegal(text);
    forall i | 0 <= i < |text|
      ensures Skipped(text[i]) || Legal(text[i]) <==>
              text[i] in ALPHABET || text[i] as int in {9, 10, 11, 12, 13, 32, 61}
    {
      SkippedIs(text[i]);
      LegalIs(text[i]);
    }
  }

  lemma EmptyText()
    ensures Text([]) == [] && Kept([]) == [] && AllLegal([]) && Values([]) == []
  {}

  lemma {:induction false} TextRoundTrip(sextets: seq<sextet>)
    ensures Kept(Text(sextets)) == Text(sextets)
    ensures AllLegal(Text(sextets)) && Values(Text(sextets)) == sextets
  {
    hide *;
    if sextets == [] {
      EmptyText();
    } else {
      var front, v := sextets[..|sextets| - 1], sextets[|sextets| - 1];
      assert sextets == front + [v];
      TextRoundTrip(front);
      TablesInverse(v);
      TextMore(front, v);
      KeptMore(Text(front), Table(v));
      ValuesMore(Text(front), Table(v));
    }
  }

  /** Decoding gives back what has been encoded. */
  lemma RoundTrip(data: seq<uint8>)
    ensures Decoded(Encoded(data)) == Ok(data)
  {
    hide Kept, Text, Values, Flatten, Filled, Dropped, Legal, Zeros;
    var text, padding := Text(Sextets(data)), Equals(Padding(|data|));
    SkippedUnobservable(text, padding, []);
    assert text + padding + [] == Encoded(data) && text + [] == text;
    TextRoundTrip(Sextets(data));
    var k := FilledBits(Flatten(data, 8), 6);
    OctetsFit(data);
    DroppedIs(data, Zeros(k), 8);
  }

  // ---------------------------------------------------------------------------
  // The standard
  // ---------------------------------------------------------------------------

  lemma ThreeOctets(data: seq<uint8>)
    requires |data| >= 3
    ensures Sextets(data) == Sextets(data[..3]) + Sextets(data[3..]) && |Sextets(data[..3])| == 4
  {
    hide Flatten, Filled, Zeros;
    var front, rest := data[..3], data[3..];
    assert data == front + rest;
    FlattenConcat(front, rest, 8);
    SextetsFit6(Sextets(front));
    var k := FilledBits(Flatten(front, 8), 6);
    NoBits(Flatten(front, 8), Zeros(k));
    FilledConcat(Sextets(front), Flatten(rest, 8), 6);
  }

  lemma {:induction false} TextConcat(a: seq<sextet>, b: seq<sextet>)
    ensures Text(a + b) == Text(a) + Text(b)
  {
    if b == [] {
      assert a + b == a;
    } else {
      var front, last := b[..|b| - 1], b[|b| - 1];
      assert a + b == (a + front) + [last] && b == front + [last];
      TextConcat(a, front);
      TextMore(a + front, last);
      TextMore(front, last);
    }
  }

  lemma NoSextets()
    ensures Sextets([]) == [] && Text([]) == []
  {}

  lemma Shifts(v: nat)
    ensures ShiftRight(v, 2) == v / 4 && ShiftRight(v, 4) == v / 16 && ShiftRight(v, 6) == v / 64
    ensures Power2(2) == 4 && Power2(4) == 16 && Power2(6) == 64
  {
    assert ShiftRight(v, 2) == ShiftRight(v / 2, 1) == v / 4;
    assert ShiftRight(v, 4) == ShiftRight(v / 4, 2) == v / 16;
    assert ShiftRight(v, 6) == ShiftRight(v / 16, 2) == v / 64;
    assert Power2(2) == 4 && Power2(4) == 16 && Power2(6) == 64;
  }

  /** The lowest bits of one number, and all of another. */
  lemma TwoNumbers(a: nat, p: nat, w: nat, q: nat, v: nat)
    requires w < Power2(q) && v == a % Power2(p) * Power2(q) + w
    ensures BitsOf(v, p + q) == BitsOf(a, p) + BitsOf(w, q)
  {
    hide BitsOf, ShiftRight, Power2;
    BitsSplit(v, p, q);
    Pushed(a % Power2(p), w, q);
    BitsWrap(a, p, p);
  }

  lemma SecondGroup(a: uint8, b: uint8)
    ensures BitsOf(SecondSix(a, b), 6) == BitsOf(a, 2) + BitsOf(b / 16, 4)
  {
    Shifts(0);
    hide BitsOf, ShiftRight, Power2;
    TwoNumbers(a, 2, b / 16, 4, SecondSix(a, b));
  }

  lemma ThirdGroup(b: uint8, c: uint8)
    ensures BitsOf(ThirdSix(b, c), 6) == BitsOf(b, 4) + BitsOf(c / 64, 2)
  {
    Shifts(0);
    hide BitsOf, ShiftRight, Power2;
    TwoNumbers(b, 4, c / 64, 2, ThirdSix(b, c));
  }

  /** The bits of three octets, in four groups. */
  lemma FourGroups(a: uint8, b: uint8, c: uint8)
    ensures BitsOf(a, 8) == BitsOf(FirstSix(a), 6) + BitsOf(a, 2)
    ensures BitsOf(b, 8) == BitsOf(b / 16, 4) + BitsOf(b, 4)
    ensures BitsOf(c, 8) == BitsOf(c / 64, 2) + BitsOf(c, 6)
    ensures BitsOf(SecondSix(a, b), 6) == BitsOf(a, 2) + BitsOf(b / 16, 4)
    ensures BitsOf(ThirdSix(b, c), 6) == BitsOf(b, 4) + BitsOf(c / 64, 2)
    ensures BitsOf(FourthSix(c), 6) == BitsOf(c, 6)
  {
    hide BitsOf, ShiftRight, Power2;
    Shifts(a);
    Shifts(b);
    Shifts(c);
    BitsSplit(a, 6, 2);
    BitsSplit(b, 4, 4);
    BitsSplit(c, 2, 6);
    SecondGroup(a, b);
    ThirdGroup(b, c);
    hide SecondSix, ThirdSix;
    BitsWrap(c, 6, 6);
  }

  lemma TextOfFour(v: sextet, w: sextet, x: sextet, y: sextet)
    ensures Text([v, w]) == [Table(v), Table(w)]
    ensures Text([v, w, x]) == [Table(v), Table(w), Table(x)]
    ensures Text([v, w, x, y]) == [Table(v), Table(w), Table(x), Table(y)]
  {
    hide *;
    EmptyText();
    TextMore([], v);
    TextMore([v], w);
    TextMore([v, w], x);
    TextMore([v, w, x], y);
    assert [] + [v] == [v] && [v] + [w] == [v, w] && [v, w] + [x] == [v, w, x] && [v, w, x] + [y] == [v, w, x, y];
  }

  /** The bits of several groups. */
  lemma FlattenFew(v: nat, w: nat, x: nat, y: nat, n: nat)
    ensures Flatten([v], n) == BitsOf(v, n)
    ensures Flatten([v, w], n) == BitsOf(v, n) + BitsOf(w, n)
    ensures Flatten([v, w, x], n) == BitsOf(v, n) + BitsOf(w, n) + BitsOf(x, n)
    ensures Flatten([v, w, x, y], n) == BitsOf(v, n) + BitsOf(w, n) + BitsOf(x, n) + BitsOf(y, n)
  {
    FlattenMore([], v, n);
    FlattenMore([v], w, n);
    FlattenMore([v, w], x, n);
    FlattenMore([v, w, x], y, n);
    assert [] + [v] == [v] && [v] + [w] == [v, w] && [v, w] + [x] == [v, w, x] && [v, w, x] + [y] == [v, w, x, y];
    assert Flatten([], n) == [];
    hide Flatten;
    Units(BitsOf(v, n));
  }

  /** The same bits, cut in other places. */
  lemma Regrouped<T>(a: seq<T>, a': seq<T>, b: seq<T>, b': seq<T>, c: seq<T>, c': seq<T>)
    ensures (a + a') + (b + b') + (c + c') == a + (a' + b) + (b' + c) + c'
    ensures (a + a') + (b + b') == a + (a' + b) + b'
  {}

  /** The groups of one, two and three octets. */
  lemma SextetsOf(a: uint8, b: uint8, c: uint8)
    ensures Sextets([a]) == [FirstSix(a), SecondSix(a, 0)]
    ensures Sextets([a, b]) == [FirstSix(a), SecondSix(a, b), ThirdSix(b, 0)]
    ensures Sextets([a, b, c]) == [FirstSix(a), SecondSix(a, b), ThirdSix(b, c), FourthSix(c)]
  {
    hide *;
    var one: seq<sextet> := [FirstSix(a), SecondSix(a, 0)];
    var two: seq<sextet> := [FirstSix(a), SecondSix(a, b), ThirdSix(b, 0)];
    var three: seq<sextet> := [FirstSix(a), SecondSix(a, b), ThirdSix(b, c), FourthSix(c)];
    SextetsFit6(one);
    SextetsFit6(two);
    SextetsFit6(three);
    FlattenFew(a, b, c, 0, 8);
    FlattenFew(one[0], one[1], 0, 0, 6);
    FlattenFew(two[0], two[1], two[2], 0, 6);
    FlattenFew(three[0], three[1], three[2], three[3], 6);
    ZeroBits(4);
    ZeroBits(2);
    FourGroups(a, 0, 0);
    Associative(BitsOf(FirstSix(a), 6), BitsOf(a, 2), Zeros(4));
    FilledIs(one, Flatten([a], 8), 4, 6);
    FourGroups(a, b, 0);
    Regrouped(BitsOf(FirstSix(a), 6), BitsOf(a, 2), BitsOf(b / 16, 4), BitsOf(b, 4), Zeros(2), []);
    Associative(BitsOf(FirstSix(a), 6) + (BitsOf(a, 2) + BitsOf(b / 16, 4)), BitsOf(b, 4), Zeros(2));
    FilledIs(two, Flatten([a, b], 8), 2, 6);
    FourGroups(a, b, c);
    Regrouped(BitsOf(FirstSix(a), 6), BitsOf(a, 2), BitsOf(b / 16, 4), BitsOf(b, 4), BitsOf(c / 64, 2), BitsOf(c, 6));
    NoBits(Flatten([a, b, c], 8), []);
    FilledIs(three, Flatten([a, b, c], 8), 0, 6);
  }

  lemma StandardOne(data: seq<uint8>)
    requires |data| == 1
    ensures Standard(data) == Text(Sextets(data)) + Equals(2)
  {
    hide Sextets, Text, Table, FirstSix, SecondSix;
    var a := data[0];
    SextetsOf(a, 0, 0);
    TextOfFour(FirstSix(a), SecondSix(a, 0), 0, 0);
    assert data == [a];
  }

  lemma StandardTwo(data: seq<uint8>)
    requires |data| == 2
    ensures Standard(data) == Text(Sextets(data)) + Equals(1)
  {
    hide Sextets, Text, Table, FirstSix, SecondSix, ThirdSix;
    var a, b := data[0], data[1];
    SextetsOf(a, b, 0);
    TextOfFour(FirstSix(a), SecondSix(a, b), ThirdSix(b, 0), 0);
    FirstThree(data);
  }

  lemma StandardFirst(data: seq<uint8>)
    requires |data| >= 3
    ensures Standard(data) == Text(Sextets(data[..3])) + Standard(data[3..])
  {
    hide Sextets, Text, Table, FirstSix, SecondSix, ThirdSix, FourthSix;
    var a, b, c := data[0], data[1], data[2];
    SextetsOf(a, b, c);
    TextOfFour(FirstSix(a), SecondSix(a, b), ThirdSix(b, c), FourthSix(c));
    FirstThree(data);
  }

  lemma Remainders(n: nat)
    ensures n == 0 ==> StandardPadding(n) == 0
    ensures n == 1 ==> StandardPadding(n) == 2
    ensures n == 2 ==> StandardPadding(n) == 1
    ensures n >= 3 ==> StandardPadding(n) == StandardPadding(n - 3)
  {}

  /** The standard text is the text of the whole bit stream, padded to four characters. */
  lemma {:induction false} StandardIs(data: seq<uint8>)
    ensures Standard(data) == Text(Sextets(data)) + Equals(StandardPadding(|data|))
    decreases |data|
  {
    Remainders(|data|);
    if data == [] {
      NoSextets();
    } else {
      hide *;
      if |data| == 1 {
        StandardOne(data);
      } else if |data| == 2 {
        StandardTwo(data);
      } else {
        StandardFirst(data);
        ThreeOctets(data);
        TextConcat(Sextets(data[..3]), Sextets(data[3..]));
        StandardIs(data[3..]);
        Associative(Text(Sextets(data[..3])), Text(Sextets(data[3..])), Equals(StandardPadding(|data|)));
      }
    }
  }

  lemma Paddings(n: nat)
    ensures n % 3 == 0 ==> Padding(n) == 1 && StandardPadding(n) == 0
    ensures n % 3 == 1 ==> Padding(n) == 0 && StandardPadding(n) == 2
    ensures n % 3 == 2 ==> Padding(n) == StandardPadding(n) == 1
  {}

  lemma SameLength<T>(text: seq<T>, a: seq<T>, b: seq<T>)
    ensures text + a == text + b ==> |a| == |b|
  {
    if text + a == text + b {
      assert |text + a| == |text + b|;
    }
  }

  lemma EqualSigns()
    ensures Equals(0) == "" && Equals(1) == "=" && Equals(2) == "=="
  {}

  /** The encoder follows the standard exactly for data lengths that are 2 modulo 3.  Otherwise it drops the padding,
      or writes a character of padding that does not belong there. */
  lemma StandardIff(data: seq<uint8>)
    ensures Encoded(data) == Standard(data) <==> |data| % 3 == 2
    ensures |data| % 3 == 0 ==> Encoded(data) == Standard(data) + "="
    ensures |data| % 3 == 1 ==> Encoded(data) + "==" == Standard(data)
  {
    var n, text := |data|, Text(Sextets(data));
    Paddings(n);
    EqualSigns();
    Units(text);
    hide Text, Sextets, Standard, Equals, Padding, StandardPadding;
    StandardIs(data);
    SameLength(text, Equals(Padding(n)), Equals(StandardPadding(n)));
  }
}

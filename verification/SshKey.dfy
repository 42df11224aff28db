/**
 SSH public keys: the wire format of key blobs, the checks on their fields, and the
 normalized one-line form. Base64 and the fingerprint hash are parameters.
 */
module SshKey {
  import opened Prelude
  import opened Text

  // ---------------------------------------------------------------- big-endian numbers

  function Pow2(n: nat): (p: nat)
    ensures p >= 1
  {
    if n == 0 then 1 else 2 * Pow2(n - 1)
  }

  /** The number a big-endian byte string denotes. */
  function Number(v: Bytes): nat {
    if v == [] then 0 else 256 * Number(v[..|v| - 1]) + v[|v| - 1]
  }

  function BitLength(b: Byte): (n: nat)
    ensures n <= 8 && b < Pow2(n) && (b > 0 ==> n >= 1 && Pow2(n - 1) <= b)
  {
    assert Pow2(7) == 128 && Pow2(6) == 64 && Pow2(5) == 32 && Pow2(4) == 16 && Pow2(3) == 8;
    if b >= 128 then assert Pow2(8) == 256; 8 else if b >= 64 then 7 else if b >= 32 then 6 else if b >= 16 then 5
    else if b >= 8 then 4 else if b >= 4 then 3 else if b >= 2 then 2 else if b >= 1 then 1 else 0
  }

  function LeadingZeros(b: Byte): nat {
    8 - BitLength(b)
  }

  function StripSign(v: Bytes): Bytes {
    if v != [] && v[0] == 0 then v[1..] else v
  }

  function MpintBits(v: Bytes): nat {
    var stripped := StripSign(v);
    if stripped == [] then 0 else |stripped| * 8 - LeadingZeros(stripped[0])
  }

  /** `validate_positive_mpint`: non-empty, sign bit clear, not zero, no superfluous leading zero byte. */
  predicate IsPositiveMpint(v: Bytes) {
    && v != []
    && v[0] < 0x80
    && (exists i | 0 <= i < |v| :: v[i] != 0)
    && !(|v| > 1 && v[0] == 0 && v[1] < 0x80)
  }

  lemma {:induction false} Pow2Sum(a: nat, b: nat)
    ensures Pow2(a + b) == Pow2(a) * Pow2(b)
  {
    if a > 0 {
      Pow2Sum(a - 1, b);
    }
  }

  lemma {:induction false} Rescale(a: nat, b: nat)
    ensures a * (b * 256) == 256 * (a * b)
  {
  }

  lemma {:induction false} ProductMonotone(a: nat, b: nat, c: nat)
    requires a <= b
    ensures a * c <= b * c
  {
  }

  lemma {:induction false} NumberBounds(v: Bytes)
    requires v != []
    ensures v[0] as int * Pow2(8 * (|v| - 1)) <= Number(v) < (v[0] as int + 1) * Pow2(8 * (|v| - 1))
  {
    var n := |v| - 1;
    if n == 0 {
      assert Number(v[..0]) == 0;
    } else {
      var front := v[..n];
      NumberBounds(front);
      var low := Pow2(8 * (n - 1));
      Pow2Sum(8 * (n - 1), 8);
      assert Pow2(8) == 256;
      Rescale(v[0], low);
      Rescale(v[0] as int + 1, low);
    }
  }

  lemma {:induction false} LeadingZeroByte(v: Bytes)
    requires v != [] && v[0] == 0
    ensures Number(v) == Number(v[1..])
  {
    var n := |v| - 1;
    if n > 0 {
      LeadingZeroByte(v[..n]);
      assert v[..n][1..] == v[1..][..n - 1];
    }
  }

  /** A validated mpint without its sign byte starts with a non-zero byte and denotes the same number. */
  lemma {:induction false} StrippedMpint(v: Bytes)
    requires IsPositiveMpint(v)
    ensures StripSign(v) != [] && StripSign(v)[0] != 0 && Number(StripSign(v)) == Number(v)
    ensures v == if StripSign(v)[0] >= 0x80 then [0] + StripSign(v) else StripSign(v)
  {
    if v[0] == 0 {
      LeadingZeroByte(v);
      assert v == [0] + v[1..];
    }
  }

  /** On every validated mpint, `mpint_bits` is the bit length of the number it denotes. */
  lemma {:induction false} BitsAreBitLength(v: Bytes)
    requires IsPositiveMpint(v)
    ensures MpintBits(v) >= 1 && Pow2(MpintBits(v) - 1) <= Number(v) < Pow2(MpintBits(v))
  {
    StrippedMpint(v);
    var s := StripSign(v);
    NumberBounds(s);
    var low := 8 * (|s| - 1);
    var k := BitLength(s[0]);
    Pow2Sum(k - 1, low);
    Pow2Sum(k, low);
    assert MpintBits(v) == k + low;
    ProductMonotone(Pow2(k - 1), s[0], Pow2(low));
    ProductMonotone(s[0] as int + 1, Pow2(k), Pow2(low));
  }

  function BigEndian(n: nat): Bytes {
    if n == 0 then [] else BigEndian(n / 256) + [n % 256]
  }

  lemma {:induction false} BigEndianIsNumber(n: nat)
    ensures Number(BigEndian(n)) == n && (n > 0 ==> BigEndian(n) != [] && BigEndian(n)[0] != 0)
  {
    if n > 0 {
      BigEndianIsNumber(n / 256);
      assert BigEndian(n)[..|BigEndian(n)| - 1] == BigEndian(n / 256);
    }
  }

  /** Every positive number has a validated mpint, and zero has none. */
  lemma {:induction false} MpintExists(n: nat) returns (v: Bytes)
    ensures n > 0 ==> IsPositiveMpint(v) && Number(v) == n
    ensures n == 0 ==> forall w :: IsPositiveMpint(w) ==> Number(w) != n
  {
    if n == 0 {
      v := [];
      forall w | IsPositiveMpint(w)
        ensures Number(w) != 0
      {
        BitsAreBitLength(w);
      }
    } else {
      BigEndianIsNumber(n);
      v := BigEndian(n);
      if v[0] >= 0x80 {
        v := [0] + v;
        LeadingZeroByte(v);
        assert v[1..] == BigEndian(n) && v[1] != 0;
      }
    }
  }

  lemma {:induction false} NumberInjective(a: Bytes, b: Bytes)
    requires |a| == |b| && Number(a) == Number(b)
    ensures a == b
  {
    var n := |a| - 1;
    if a != [] {
      NumberInjective(a[..n], b[..n]);
      assert a == a[..n] + [a[n]] && b == b[..n] + [b[n]];
    }
  }

  lemma {:induction false} LongerIsLarger(a: Bytes, b: Bytes)
    requires a != [] && b != [] && a[0] != 0 && |a| > |b|
    ensures Number(a) > Number(b)
  {
    NumberBounds(a);
    NumberBounds(b);
    var high, low := 8 * (|a| - 1), 8 * (|b| - 1);
    Pow2Sum(8, low);
    Pow2Sum(high - low - 8, low + 8);
    assert Pow2(8) == 256;
    ProductMonotone(1, Pow2(high - low - 8), Pow2(low + 8));
    ProductMonotone(b[0] as int + 1, 256, Pow2(low));
    ProductMonotone(1, a[0], Pow2(high));
  }

  /** Two validated mpints denote the same number only if they are the same bytes. */
  lemma {:induction false} MpintUnique(a: Bytes, b: Bytes)
    requires IsPositiveMpint(a) && IsPositiveMpint(b) && Number(a) == Number(b)
    ensures a == b
  {
    StrippedMpint(a);
    StrippedMpint(b);
    var s, t := StripSign(a), StripSign(b);
    if |s| > |t| {
      LongerIsLarger(s, t);
    } else if |t| > |s| {
      LongerIsLarger(t, s);
    } else {
      NumberInjective(s, t);
    }
  }

  // ---------------------------------------------------------------- wire format

  const U32_LIMIT := 0x1_0000_0000

  function U32(n: nat): (b: Bytes)
    requires n < U32_LIMIT
    ensures |b| == 4
  {
    [n / 256 / 256 / 256, n / 256 / 256 % 256, n / 256 % 256, n % 256]
  }

  function U32Value(b: Bytes): (n: nat)
    requires |b| == 4
    ensures n < U32_LIMIT
  {
    ((b[0] as int * 256 + b[1] as int) * 256 + b[2] as int) * 256 + b[3] as int
  }

  lemma {:induction false} LastByte(q: nat, r: Byte)
    ensures (q * 256 + r) / 256 == q && (q * 256 + r) % 256 == r
  {
  }

  lemma {:induction false} U32OfValue(b: Bytes)
    requires |b| == 4
    ensures U32(U32Value(b)) == b
  {
    var n1: nat := b[0] as int * 256 + b[1] as int;
    var n2: nat := n1 * 256 + b[2] as int;
    LastByte(n2, b[3]);
    LastByte(n1, b[2]);
    LastByte(b[0], b[1]);
  }

  lemma {:induction false} ValueOfU32(n: nat)
    requires n < U32_LIMIT
    ensures U32Value(U32(n)) == n
  {
    var n1 := n / 256;
    var n2 := n1 / 256;
    assert n == n1 * 256 + n % 256 && n1 == n2 * 256 + n1 % 256 && n2 == n2 / 256 * 256 + n2 % 256;
    assert n2 / 256 < 256;
  }

  /** A string of RFC 4251, section 5: four length bytes and the content. */
  function Field(content: Bytes): Bytes
    requires |content| < U32_LIMIT
  {
    U32(|content|) + content
  }

  predicate FitFields(fields: seq<Bytes>) {
    forall i | 0 <= i < |fields| :: |fields[i]| < U32_LIMIT
  }

  function Serialize(fields: seq<Bytes>): Bytes
    requires FitFields(fields)
  {
    if fields == [] then [] else Field(fields[0]) + Serialize(fields[1..])
  }

  /** The field at the head of the input, if it is complete, and what follows it. */
  function SplitField(input: Bytes): Option<(Bytes, Bytes)> {
    if |input| < 4 || 4 + U32Value(input[..4]) > |input| then None
    else Some((input[4..4 + U32Value(input[..4])], input[4 + U32Value(input[..4])..]))
  }

  lemma {:induction false} SplitOfField(content: Bytes, rest: Bytes)
    requires |content| < U32_LIMIT
    ensures SplitField(Field(content) + rest) == Some((content, rest))
  {
    var input := Field(content) + rest;
    assert input[..4] == U32(|content|);
    ValueOfU32(|content|);
    assert input[4..4 + |content|] == content && input[4 + |content|..] == rest;
  }

  lemma {:induction false} FieldOfSplit(input: Bytes)
    requires SplitField(input).Some?
    ensures |SplitField(input).value.0| < U32_LIMIT
    ensures input == Field(SplitField(input).value.0) + SplitField(input).value.1
  {
    var (content, rest) := SplitField(input).value;
    U32OfValue(input[..4]);
    assert input == input[..4] + content + rest;
  }

  lemma {:induction false} SplitOfSerialize(fields: seq<Bytes>, rest: Bytes)
    requires FitFields(fields) && fields != []
    ensures SplitField(Serialize(fields) + rest) == Some((fields[0], Serialize(fields[1..]) + rest))
  {
    SplitOfField(fields[0], Serialize(fields[1..]) + rest);
    assert Serialize(fields) + rest == Field(fields[0]) + (Serialize(fields[1..]) + rest);
  }

  /** Serialization loses nothing: the fields can be read off again, with anything that follows. */
  lemma {:induction false} SerializeInjective(a: seq<Bytes>, b: seq<Bytes>, x: Bytes, y: Bytes)
    requires FitFields(a) && FitFields(b) && |a| == |b|
    requires Serialize(a) + x == Serialize(b) + y
    ensures a == b && x == y
  {
    if a == [] {
      assert [] + x == x && [] + y == y;
    } else {
      SplitOfSerialize(a, x);
      SplitOfSerialize(b, y);
      SerializeInjective(a[1..], b[1..], x, y);
      assert a == [a[0]] + a[1..] && b == [b[0]] + b[1..];
    }
  }

  // ---------------------------------------------------------------- text

  function Utf8Char(c: char): (b: Bytes)
    ensures 1 <= |b| <= 4
  {
    var n := c as int;
    if n < 0x80 then [n]
    else if n < 0x800 then [0xC0 + n / 64, 0x80 + n % 64]
    else if n < 0x1_0000 then [0xE0 + n / 4096, 0x80 + n / 64 % 64, 0x80 + n % 64]
    else [0xF0 + n / 0x4_0000, 0x80 + n / 4096 % 64, 0x80 + n / 64 % 64, 0x80 + n % 64]
  }

  /** Six more bits from a continuation byte. */
  function Six(high: int, b: Byte): int {
    high * 64 + (b as int - 128)
  }

  /** RFC 3629 section 3: the shortest form for the character, its number in the lead byte and six bits a byte. */
  lemma {:induction false} CharacterBytes(c: char)
    ensures var b := Utf8Char(c);
            && |b| == (if c as int < 128 then 1 else if c as int < 2048 then 2 else if c as int < 65536 then 3 else 4)
            && (forall i | 1 <= i < |b| :: 128 <= b[i] < 192)
            && (|b| == 1 ==> b == [c as int])
            && (|b| == 2 ==> 192 <= b[0] < 224 && c as int == Six(b[0] as int - 192, b[1]))
            && (|b| == 3 ==> 224 <= b[0] < 240 && c as int == Six(Six(b[0] as int - 224, b[1]), b[2]))
            && (|b| == 4 ==> 240 <= b[0] < 245 && c as int == Six(Six(Six(b[0] as int - 240, b[1]), b[2]), b[3]))
  {
    var n := c as int;
    assert n / 64 / 64 == n / 4096 && n / 64 / 64 / 64 == n / 262144;
  }

  function Utf8(s: string): (b: Bytes)
    ensures |b| >= |s|
  {
    if s == [] then [] else Utf8Char(s[0]) + Utf8(s[1..])
  }

  lemma {:induction false} Associate(a: Bytes, b: Bytes, c: Bytes)
    ensures a + (b + c) == a + b + c
  {
  }

  lemma {:induction false} Utf8Concat(a: string, b: string)
    ensures Utf8(a + b) == Utf8(a) + Utf8(b)
  {
    if a == [] {
      assert a + b == b;
    } else {
      Utf8Concat(a[1..], b);
      assert (a + b)[0] == a[0] && (a + b)[1..] == a[1..] + b;
      Associate(Utf8Char(a[0]), Utf8(a[1..]), Utf8(b));
    }
  }

  lemma {:induction false} FirstWordFits(s: string)
    requires Words(s) != []
    ensures s != [] && |Utf8(Words(s)[0])| + (if IsWhitespace(s[0]) then 1 else 0) <= |Utf8(s)|
    decreases |s|
  {
    if IsWhitespace(s[0]) {
      FirstWordFits(s[1..]);
    } else {
      var n := WordEnd(s);
      Utf8Concat(s[..n], s[n..]);
      assert s == s[..n] + s[n..];
    }
  }

  /** The first two words, with one space, are no longer than the line they come from. */
  lemma {:induction false} FirstTwoWordsFit(s: string)
    requires |Words(s)| >= 2
    ensures |Utf8(Words(s)[0] + " " + Words(s)[1])| <= |Utf8(s)|
    decreases |s|
  {
    if IsWhitespace(s[0]) {
      FirstTwoWordsFit(s[1..]);
    } else {
      var n := WordEnd(s);
      var a, rest := s[..n], s[n..];
      assert s == a + rest && Words(s)[1] == Words(rest)[0];
      FirstWordFits(rest);
      Utf8Concat(a, rest);
      Utf8Concat(a + " ", Words(rest)[0]);
      Utf8Concat(a, " ");
      assert Utf8(" ") == Utf8Char(' ') + Utf8("") by {
        assert " "[1..] == "";
      }
    }
  }

  // ---------------------------------------------------------------- keys

  datatype FieldCheck = Exactly(length: nat) | Exponent | Modulus | Curve(name: string) | Point(length: nat) | NonEmpty

  predicate Passes(check: FieldCheck, field: Bytes) {
    match check
    case Exactly(length) => |field| == length
    case Exponent => IsPositiveMpint(field) && |field| <= 8
    case Modulus => IsPositiveMpint(field) && MpintBits(field) >= 2048
    case Curve(name) => field == Utf8(name)
    case Point(length) => |field| == length && field != [] && field[0] == 4
    case NonEmpty => field != []
  }

  /** The fields that follow the algorithm name: RFC 8709 section 4, RFC 4253 section 6.6, RFC 5656 section 3.1. */
  function Layout(algorithm: string): Option<seq<FieldCheck>> {
    if algorithm == "ssh-ed25519" then Some([Exactly(32)])
    else if algorithm == "ssh-rsa" then Some([Exponent, Modulus])
    else if algorithm == "ecdsa-sha2-nistp256" then Some([Curve("nistp256"), Point(65)])
    else if algorithm == "ecdsa-sha2-nistp384" then Some([Curve("nistp384"), Point(97)])
    else if algorithm == "ecdsa-sha2-nistp521" then Some([Curve("nistp521"), Point(133)])
    else if algorithm == "sk-ssh-ed25519@openssh.com" then Some([Exactly(32), NonEmpty])
    else if algorithm == "sk-ecdsa-sha2-nistp256@openssh.com" then Some([Curve("nistp256"), Point(65), NonEmpty])
    else None
  }

  predicate Pass(checks: seq<FieldCheck>, fields: seq<Bytes>) {
    |checks| == |fields| && FitFields(fields) && forall i | 0 <= i < |fields| :: Passes(checks[i], fields[i])
  }

  /** The fields of a key of this algorithm. */
  predicate IsKey(algorithm: string, fields: seq<Bytes>) {
    Layout(algorithm).Some? && Pass(Layout(algorithm).value, fields)
  }

  function ParseFields(checks: seq<FieldCheck>, input: Bytes): Option<Bytes> {
    if checks == [] then Some(input)
    else match SplitField(input)
      case None => None
      case Some((field, rest)) => if Passes(checks[0], field) then ParseFields(checks[1..], rest) else None
  }

  /** The outcome of reading fields: success exactly when they parse, and then the input left is what follows them. */
  predicate Outcome(checks: seq<FieldCheck>, input: Bytes, ok: bool, rest: Bytes) {
    if ok then ParseFields(checks, input) == Some(rest) else ParseFields(checks, input) == None
  }

  /** Fields are read one after the other. */
  lemma {:induction false} ParseBoth(first: seq<FieldCheck>, second: seq<FieldCheck>, input: Bytes)
    ensures ParseFields(first + second, input) ==
            match ParseFields(first, input) { case None => None case Some(rest) => ParseFields(second, rest) }
  {
    if first == [] {
      assert first + second == second;
    } else if SplitField(input).Some? {
      assert (first + second)[1..] == first[1..] + second;
      ParseBoth(first[1..], second, SplitField(input).value.1);
    }
  }

  ghost predicate Spells(checks: seq<FieldCheck>, fields: seq<Bytes>, input: Bytes, rest: Bytes) {
    Pass(checks, fields) && input == Serialize(fields) + rest
  }

  lemma {:induction false} ParsedSpells(checks: seq<FieldCheck>, input: Bytes) returns (fields: seq<Bytes>)
    requires ParseFields(checks, input).Some?
    ensures Spells(checks, fields, input, ParseFields(checks, input).value)
  {
    if checks == [] {
      fields := [];
      assert [] + input == input;
    } else {
      var (field, rest) := SplitField(input).value;
      FieldOfSplit(input);
      var more := ParsedSpells(checks[1..], rest);
      fields := [field] + more;
      assert fields[1..] == more;
      assert input == Field(field) + (Serialize(more) + ParseFields(checks, input).value);
    }
  }

  lemma {:induction false} SpelledParses(checks: seq<FieldCheck>, fields: seq<Bytes>, input: Bytes, rest: Bytes)
    requires Spells(checks, fields, input, rest)
    ensures ParseFields(checks, input) == Some(rest)
  {
    if checks == [] {
      assert [] + rest == rest;
    } else {
      SplitOfSerialize(fields, rest);
      SpelledParses(checks[1..], fields[1..], Serialize(fields[1..]) + rest, rest);
    }
  }

  /** A blob is accepted when it is exactly the serialization of the algorithm name and fields of such a key. */
  ghost predicate AcceptsBlob(algorithm: string, blob: Bytes) {
    exists fields :: IsKey(algorithm, fields) && FitFields([Utf8(algorithm)] + fields)
                     && blob == Serialize([Utf8(algorithm)] + fields)
  }

  lemma {:induction false} NameFits(algorithm: string, fields: seq<Bytes>)
    requires IsKey(algorithm, fields)
    ensures |Utf8(algorithm)| < 200 && FitFields([Utf8(algorithm)] + fields)
  {
    Utf8Length(algorithm);
  }

  lemma {:induction false} Utf8Length(s: string)
    ensures |Utf8(s)| <= 4 * |s|
  {
    if s != [] {
      Utf8Length(s[1..]);
    }
  }

  lemma {:induction false} AcceptsMeansParses(algorithm: string, blob: Bytes)
    ensures AcceptsBlob(algorithm, blob) <==>
            && Layout(algorithm).Some?
            && SplitField(blob).Some? && SplitField(blob).value.0 == Utf8(algorithm)
            && ParseFields(Layout(algorithm).value, SplitField(blob).value.1) == Some([])
  {
    var name := Utf8(algorithm);
    if AcceptsBlob(algorithm, blob) {
      var fields :| IsKey(algorithm, fields) && FitFields([name] + fields) && blob == Serialize([name] + fields);
      SplitOfSerialize([name] + fields, []);
      assert blob + [] == blob && ([name] + fields)[1..] == fields;
      SpelledParses(Layout(algorithm).value, fields, Serialize(fields) + [], []);
    }
    if && Layout(algorithm).Some? && SplitField(blob).Some? && SplitField(blob).value.0 == name
       && ParseFields(Layout(algorithm).value, SplitField(blob).value.1) == Some([]) {
      var rest := SplitField(blob).value.1;
      var fields := ParsedSpells(Layout(algorithm).value, rest);
      FieldOfSplit(blob);
      NameFits(algorithm, fields);
      assert ([name] + fields)[1..] == fields && Serialize(fields) + [] == Serialize(fields);
      assert blob == Serialize([name] + fields);
    }
  }

  /** The fields of an accepted blob are determined by it. */
  lemma {:induction false} KeyIsUnique(algorithm: string, a: seq<Bytes>, b: seq<Bytes>)
    requires IsKey(algorithm, a) && IsKey(algorithm, b)
    requires FitFields([Utf8(algorithm)] + a) && FitFields([Utf8(algorithm)] + b)
    requires Serialize([Utf8(algorithm)] + a) == Serialize([Utf8(algorithm)] + b)
    ensures a == b
  {
    var x, y := [Utf8(algorithm)] + a, [Utf8(algorithm)] + b;
    assert Serialize(x) + [] == Serialize(y) + [];
    SerializeInjective(x, y, [], []);
    assert x[1..] == a && y[1..] == b;
  }

  lemma {:induction false} Utf8OfAscii(s: string)
    requires forall i | 0 <= i < |s| :: s[i] as int < 128
    ensures |Utf8(s)| == |s| && forall i | 0 <= i < |s| :: Utf8(s)[i] == s[i] as int
  {
    if s != [] {
      Utf8OfAscii(s[1..]);
    }
  }

  /** A short field on the wire: three zero bytes, its length, its content. */
  lemma {:induction false} ShortField(content: Bytes)
    requires |content| < 256
    ensures Field(content) == [0, 0, 0, |content|] + content
  {
  }

  lemma {:induction false} SerializeTwo(a: Bytes, b: Bytes)
    requires |a| < U32_LIMIT && |b| < U32_LIMIT
    ensures FitFields([a, b]) && Serialize([a, b]) == Field(a) + Field(b)
  {
    assert [a, b][1..] == [b] && [b][1..] == [];
    assert Serialize([b]) == Field(b) + [];
  }

  ghost predicate IsEd25519Wire(name: string, blob: Bytes)
    requires |name| == 11
  {
    && |blob| == 51 && blob[..4] == [0, 0, 0, 11] && blob[15..19] == [0, 0, 0, 32]
    && forall i | 0 <= i < 11 :: blob[4 + i] == name[i] as int
  }

  /** What is accepted as an Ed25519 key, byte by byte: the name's field and one field of 32 bytes. */
  lemma {:induction false} AcceptedEd25519(blob: Bytes)
    ensures AcceptsBlob("ssh-ed25519", blob) <==>
            && |blob| == 51 && blob[..4] == [0, 0, 0, 11] && blob[15..19] == [0, 0, 0, 32]
            && forall i | 0 <= i < 11 :: blob[4 + i] == "ssh-ed25519"[i] as int
  {
    var name := "ssh-ed25519";
    if AcceptsBlob(name, blob) {
      AcceptedIsWire(name, blob);
    }
    if IsEd25519Wire(name, blob) {
      WireIsAccepted(name, blob);
    }
  }

  lemma {:induction false} AcceptedIsWire(name: string, blob: Bytes)
    requires name == "ssh-ed25519" && AcceptsBlob(name, blob)
    ensures IsEd25519Wire(name, blob)
  {
    var fields :| IsKey(name, fields) && FitFields([Utf8(name)] + fields) && blob == Serialize([Utf8(name)] + fields);
    PassFew([Exactly(32)], fields);
    assert [Utf8(name)] + fields == [Utf8(name), fields[0]];
    FieldsAreWire(name, fields[0], blob);
  }

  lemma {:induction false} FieldsAreWire(name: string, key: Bytes, blob: Bytes)
    requires |name| == 11 && (forall i | 0 <= i < |name| :: name[i] as int < 128) && |key| == 32
    ensures FitFields([Utf8(name), key])
    ensures blob == Serialize([Utf8(name), key]) ==> IsEd25519Wire(name, blob)
    ensures IsEd25519Wire(name, blob) && key == blob[19..] ==> blob == Serialize([Utf8(name), key])
  {
    Utf8OfAscii(name);
    Ed25519Wire(Utf8(name), key, blob);
    if IsEd25519Wire(name, blob) && key == blob[19..] {
      assert blob[4..15] == Utf8(name);
      assert blob == blob[..4] + blob[4..15] + blob[15..19] + key;
    }
  }

  lemma {:induction false} WireIsAccepted(name: string, blob: Bytes)
    requires name == "ssh-ed25519" && IsEd25519Wire(name, blob)
    ensures AcceptsBlob(name, blob)
  {
    var key := blob[19..];
    FieldsAreWire(name, key, blob);
    PassFew([Exactly(32)], [key]);
    assert IsKey(name, [key]) && [Utf8(name)] + [key] == [Utf8(name), key];
  }

  lemma {:induction false} Ed25519Wire(name: Bytes, key: Bytes, blob: Bytes)
    requires |name| == 11 && |key| == 32
    ensures FitFields([name, key])
    ensures blob == Serialize([name, key]) <==> blob == [0, 0, 0, 11] + name + [0, 0, 0, 32] + key
  {
    SerializeTwo(name, key);
    ShortField(name);
    ShortField(key);
    assert Field(name) + Field(key) == [0, 0, 0, 11] + name + [0, 0, 0, 32] + key;
  }

  lemma {:induction false} PassFew(checks: seq<FieldCheck>, f: seq<Bytes>)
    requires 1 <= |checks| <= 3 && FitFields(f)
    ensures Pass(checks, f) <==>
            && |f| == |checks| && Passes(checks[0], f[0])
            && (|f| > 1 ==> Passes(checks[1], f[1])) && (|f| > 2 ==> Passes(checks[2], f[2]))
  {
  }

  // The fields each algorithm asks for, in full: sizes of keys and points, curve names, number ranges.

  lemma {:induction false} PlainKeyFields(f: seq<Bytes>)
    requires FitFields(f)
    ensures IsKey("ssh-ed25519", f) <==> |f| == 1 && |f[0]| == 32
    ensures IsKey("ssh-rsa", f) <==>
            |f| == 2 && IsPositiveMpint(f[0]) && |f[0]| <= 8 && IsPositiveMpint(f[1]) && MpintBits(f[1]) >= 2048
  {
    PassFew([Exactly(32)], f);
    PassFew([Exponent, Modulus], f);
  }

  lemma {:induction false} CurveAndPoint(curve: string, length: nat, f: seq<Bytes>)
    requires FitFields(f) && length > 0
    ensures Pass([Curve(curve), Point(length)], f) <==>
            |f| == 2 && f[0] == Utf8(curve) && |f[1]| == length && f[1][0] == 4
  {
    PassFew([Curve(curve), Point(length)], f);
  }

  lemma {:induction false} Nistp256(f: seq<Bytes>)
    requires FitFields(f)
    ensures IsKey("ecdsa-sha2-nistp256", f) <==> |f| == 2 && f[0] == Utf8("nistp256") && |f[1]| == 65 && f[1][0] == 4
  {
    CurveAndPoint("nistp256", 65, f);
  }

  lemma {:induction false} Nistp384(f: seq<Bytes>)
    requires FitFields(f)
    ensures IsKey("ecdsa-sha2-nistp384", f) <==> |f| == 2 && f[0] == Utf8("nistp384") && |f[1]| == 97 && f[1][0] == 4
  {
    CurveAndPoint("nistp384", 97, f);
  }

  lemma {:induction false} Nistp521(f: seq<Bytes>)
    requires FitFields(f)
    ensures IsKey("ecdsa-sha2-nistp521", f) <==> |f| == 2 && f[0] == Utf8("nistp521") && |f[1]| == 133 && f[1][0] == 4
  {
    CurveAndPoint("nistp521", 133, f);
  }

  lemma {:induction false} HardwareKeyFields(f: seq<Bytes>)
    requires FitFields(f)
    ensures IsKey("sk-ssh-ed25519@openssh.com", f) <==> |f| == 2 && |f[0]| == 32 && |f[1]| > 0
    ensures IsKey("sk-ecdsa-sha2-nistp256@openssh.com", f) <==>
            |f| == 3 && f[0] == Utf8("nistp256") && |f[1]| == 65 && f[1][0] == 4 && |f[2]| > 0
  {
    PassFew([Exactly(32), NonEmpty], f);
    PassFew([Curve("nistp256"), Point(65), NonEmpty], f);
  }

  /** Any other algorithm has no keys. */
  lemma {:induction false} NoOtherKeys(algorithm: string, f: seq<Bytes>)
    requires IsKey(algorithm, f)
    ensures || algorithm == "ssh-ed25519" || algorithm == "ssh-rsa" || algorithm == "ecdsa-sha2-nistp256"
            || algorithm == "ecdsa-sha2-nistp384" || algorithm == "ecdsa-sha2-nistp521"
            || algorithm == "sk-ssh-ed25519@openssh.com" || algorithm == "sk-ecdsa-sha2-nistp256@openssh.com"
  {
  }

  /** An accepted RSA key has a modulus of at least 2^2047 and an exponent below 2^64. */
  lemma {:induction false} AcceptedRsaIsStrong(blob: Bytes) returns (exponent: Bytes, modulus: Bytes)
    requires AcceptsBlob("ssh-rsa", blob)
    ensures FitFields([Utf8("ssh-rsa"), exponent, modulus]) && blob == Serialize([Utf8("ssh-rsa"), exponent, modulus])
    ensures forall k: nat | k < 2048 :: Pow2(k) <= Number(modulus)
    ensures forall k: nat | 64 <= k :: Number(exponent) < Pow2(k)
    ensures Number(exponent) > 0
  {
    var name := Utf8("ssh-rsa");
    var fields :| IsKey("ssh-rsa", fields) && FitFields([name] + fields) && blob == Serialize([name] + fields);
    exponent, modulus := fields[0], fields[1];
    assert [name] + fields == [name, exponent, modulus];
    assert Passes(Exponent, exponent) && Passes(Modulus, modulus);
    RsaSizes(exponent, modulus);
  }

  lemma {:induction false} RsaSizes(exponent: Bytes, modulus: Bytes)
    requires Passes(Exponent, exponent) && Passes(Modulus, modulus)
    ensures forall k: nat | k < 2048 :: Pow2(k) <= Number(modulus)
    ensures forall k: nat | 64 <= k :: Number(exponent) < Pow2(k)
    ensures Number(exponent) > 0
  {
    BitsAreBitLength(modulus);
    BitsAreBitLength(exponent);
    forall k: nat | k < 2048
      ensures Pow2(k) <= Number(modulus)
    {
      Pow2Grows(k, MpintBits(modulus) - 1);
    }
    forall k: nat | 64 <= k
      ensures Number(exponent) < Pow2(k)
    {
      Pow2Grows(MpintBits(exponent), k);
    }
  }

  lemma {:induction false} Pow2Grows(a: nat, b: nat)
    requires a <= b
    ensures Pow2(a) <= Pow2(b)
  {
    if a < b {
      Pow2Grows(a, b - 1);
    }
  }

  /** A position in a blob; fields are read one after the other. */
  class Reader {
    const blob: Bytes
    var cursor: nat

    ghost predicate Valid()
      reads this
    {
      cursor <= |blob|
    }

    constructor (blob: Bytes)
      ensures Valid() && this.blob == blob && cursor == 0
    {
      this.blob := blob;
      cursor := 0;
    }

    method ReadField() returns (field: Option<Bytes>)
      requires Valid()
      modifies this`cursor
      ensures Valid() && old(cursor) <= cursor
      ensures match SplitField(blob[old(cursor)..])
              case None => field == None
              case Some((content, rest)) => field == Some(content) && blob[cursor..] == rest
    {
      ghost var input := blob[cursor..];
      var prefixEnd := cursor + 4;
      if prefixEnd > |blob| {
        return None;
      }
      assert input[..4] == blob[cursor..prefixEnd];
      var length := U32Value(blob[cursor..prefixEnd]);
      cursor := prefixEnd;
      var fieldEnd := cursor + length;
      if fieldEnd > |blob| {
        return None;
      }
      field := Some(blob[cursor..fieldEnd]);
      cursor := fieldEnd;
      assert input[4..4 + length] == field.value && input[4 + length..] == blob[cursor..];
    }

    /** Read a field and check it, as each step of `validate_key_blob` does. */
    method Require(check: FieldCheck) returns (ok: bool)
      requires Valid()
      modifies this`cursor
      ensures Valid() && Outcome([check], blob[old(cursor)..], ok, blob[cursor..])
    {
      var field := ReadField();
      ok := field.Some? && Passes(check, field.value);
      assert [check][1..] == [];
    }

    method ValidateEcdsa(curve: string, pointLength: nat) returns (ok: bool)
      requires Valid()
      modifies this`cursor
      ensures Valid() && Outcome([Curve(curve), Point(pointLength)], blob[old(cursor)..], ok, blob[cursor..])
    {
      ParseBoth([Curve(curve)], [Point(pointLength)], blob[cursor..]);
      ok := Require(Curve(curve));
      if ok {
        ok := Require(Point(pointLength));
      }
    }

    /** True exactly when the remaining input starts with the fields of such a key, which are then consumed. */
    method ValidateKeyBlob(algorithm: string) returns (ok: bool)
      requires Valid()
      modifies this`cursor
      ensures Valid()
      ensures if Layout(algorithm) == None then !ok
              else Outcome(Layout(algorithm).value, blob[old(cursor)..], ok, blob[cursor..])
    {
      ghost var input := blob[cursor..];
      if algorithm == "ssh-ed25519" {
        ok := Require(Exactly(32));
      } else if algorithm == "ssh-rsa" {
        ParseBoth([Exponent], [Modulus], input);
        ok := Require(Exponent);
        if ok {
          ok := Require(Modulus);
        }
      } else if algorithm == "ecdsa-sha2-nistp256" {
        ok := ValidateEcdsa("nistp256", 65);
      } else if algorithm == "ecdsa-sha2-nistp384" {
        ok := ValidateEcdsa("nistp384", 97);
      } else if algorithm == "ecdsa-sha2-nistp521" {
        ok := ValidateEcdsa("nistp521", 133);
      } else if algorithm == "sk-ssh-ed25519@openssh.com" {
        ParseBoth([Exactly(32)], [NonEmpty], input);
        ok := Require(Exactly(32));
        if ok {
          ok := Require(NonEmpty);
        }
      } else if algorithm == "sk-ecdsa-sha2-nistp256@openssh.com" {
        ParseBoth([Curve("nistp256"), Point(65)], [NonEmpty], input);
        ok := ValidateEcdsa("nistp256", 65);
        if ok {
          ok := Require(NonEmpty);
        }
      } else {
        ok := false;
      }
    }
  }

  /** The blob checks of `parse_public_key`: name, fields, nothing trailing. */
  method CheckBlob(algorithm: string, blob: Bytes) returns (ok: bool)
    ensures ok <==> AcceptsBlob(algorithm, blob)
  {
    AcceptsMeansParses(algorithm, blob);
    var reader := new Reader(blob);
    assert blob[0..] == blob;
    var name := reader.ReadField();
    if name != Some(Utf8(algorithm)) {
      return false;
    }
    ok := reader.ValidateKeyBlob(algorithm);
    if ok {
      ok := reader.cursor == |blob|;
      assert ok <==> blob[reader.cursor..] == [];
    }
  }

  // ---------------------------------------------------------------- key lines

  /** Standard base64 and the fingerprint of a blob. */
  datatype Codec = Codec(encode: Bytes -> string, decode: string -> Option<Bytes>, fingerprint: Bytes -> string)

  /** What the base64 engine provides: strict decoding inverts encoding, and an encoding has no whitespace. */
  ghost predicate Strict(c: Codec) {
    && (forall b :: c.decode(c.encode(b)) == Some(b))
    && (forall s :: c.decode(s).Some? ==> c.encode(c.decode(s).value) == s)
    && (forall b :: b != [] ==> IsWord(c.encode(b)))
  }

  const MAX_KEY_LINE_BYTES := 64 * 1024

  datatype ParsedKey = ParsedKey(normalized: string, fingerprint: string, algorithm: string, comment: string)

  ghost function KeyOf(c: Codec, input: string): Option<ParsedKey> {
    var line := Trim(input);
    if line == "" || |Utf8(line)| > MAX_KEY_LINE_BYTES then None
    else
      var words := Words(line);
      if |words| < 2 || c.decode(words[1]) == None || !AcceptsBlob(words[0], c.decode(words[1]).value) then None
      else
        var blob := c.decode(words[1]).value;
        Some(ParsedKey(words[0] + " " + c.encode(blob), c.fingerprint(blob), words[0], JoinWords(words[2..])))
  }

  method ParsePublicKey(c: Codec, input: string) returns (key: Option<ParsedKey>)
    ensures key == KeyOf(c, input)
  {
    var line := Trim(input);
    if line == "" || |Utf8(line)| > MAX_KEY_LINE_BYTES {
      return None;
    }
    var words := Words(line);
    if |words| < 2 {
      return None;
    }
    var algorithm, encoded, comment := words[0], words[1], JoinWords(words[2..]);
    var decoded := c.decode(encoded);
    if decoded == None {
      return None;
    }
    var ok := CheckBlob(algorithm, decoded.value);
    if !ok {
      return None;
    }
    key := Some(ParsedKey(algorithm + " " + c.encode(decoded.value), c.fingerprint(decoded.value), algorithm, comment));
  }

  lemma {:induction false} SoftwareNamesAreWords()
    ensures IsWord("ssh-ed25519") && IsWord("ssh-rsa")
    ensures IsWord("ecdsa-sha2-nistp256") && IsWord("ecdsa-sha2-nistp384") && IsWord("ecdsa-sha2-nistp521")
  {
  }

  lemma {:induction false} HardwareNamesAreWords()
    ensures IsWord("sk-ssh-ed25519@openssh.com") && IsWord("sk-ecdsa-sha2-nistp256@openssh.com")
  {
  }

  lemma {:induction false} AlgorithmIsWord(algorithm: string)
    requires Layout(algorithm).Some?
    ensures IsWord(algorithm)
  {
    SoftwareNamesAreWords();
    HardwareNamesAreWords();
  }

  /** A key line built from the fields of a key is parsed back: name, blob, comment. */
  lemma {:induction false} KeyLineRoundTrip(c: Codec, algorithm: string, fields: seq<Bytes>, comment: seq<string>)
    requires Strict(c) && IsKey(algorithm, fields)
    requires FitFields([Utf8(algorithm)] + fields)
    requires forall i | 0 <= i < |comment| :: IsWord(comment[i])
    requires var encoded := c.encode(Serialize([Utf8(algorithm)] + fields));
             |Utf8(JoinWords([algorithm, encoded] + comment))| <= MAX_KEY_LINE_BYTES
    ensures var blob := Serialize([Utf8(algorithm)] + fields);
            KeyOf(c, JoinWords([algorithm, c.encode(blob)] + comment))
            == Some(ParsedKey(algorithm + " " + c.encode(blob), c.fingerprint(blob), algorithm, JoinWords(comment)))
  {
    var blob := Serialize([Utf8(algorithm)] + fields);
    assert blob != [] by {
      assert |Field(Utf8(algorithm))| >= 4;
    }
    AlgorithmIsWord(algorithm);
    var words := [algorithm, c.encode(blob)] + comment;
    WordsOfJoin(words);
    TrimTrimmed(JoinWords(words));
    assert AcceptsBlob(algorithm, blob);
    assert words[2..] == comment;
  }

  /** The normalized line is a fixed point: it parses to itself, with the same fingerprint and no comment. */
  lemma {:induction false} NormalizedIsFixed(c: Codec, input: string)
    requires Strict(c) && KeyOf(c, input).Some?
    ensures var key := KeyOf(c, input).value;
            KeyOf(c, key.normalized) == Some(key.(comment := ""))
  {
    var line := Trim(input);
    var words := Words(line);
    var pair := [words[0], words[1]];
    FirstTwoWordsFit(line);
    WordsOfJoin(pair);
    assert pair[1..] == [words[1]] && JoinWords(pair) == words[0] + " " + words[1];
    TrimTrimmed(JoinWords(pair));
    assert pair[2..] == [];
  }
}

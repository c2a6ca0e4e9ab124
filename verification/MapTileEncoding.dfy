/** Printing tiles, and that scanning undoes it. */
module MapTileEncoding {
  import opened MapTileScanner
  import opened Sorting

  function EncodeVarint(v: nat): (r: seq<Byte>)
    ensures |r| >= 1
  {
    if v < 128 then [v] else [v % 128 + 128] + EncodeVarint(v / 128)
  }

  /** A field of one of the wire types the scanner knows. */
  datatype Field =
    | Varint(no: nat, value: nat)
    | Fixed64(no: nat, bytes: seq<Byte>)
    | Bytes(no: nat, bytes: seq<Byte>)
    | Fixed32(no: nat, bytes: seq<Byte>)
  {
    function Wire(): nat {
      match this
      case Varint(_, _) => 0
      case Fixed64(_, _) => 1
      case Bytes(_, _) => 2
      case Fixed32(_, _) => 5
    }

    function Key(): nat { no * 8 + Wire() }

    predicate Valid() {
      && Key() < WORD
      && match this
         case Varint(_, v) => v < WORD
         case Fixed64(_, bytes) => |bytes| == 8
         case Bytes(_, bytes) => |bytes| < WORD
         case Fixed32(_, bytes) => |bytes| == 4
    }

    function Body(): seq<Byte> {
      match this
      case Varint(_, v) => EncodeVarint(v)
      case Fixed64(_, bytes) => bytes
      case Bytes(_, bytes) => EncodeVarint(|bytes|) + bytes
      case Fixed32(_, bytes) => bytes
    }

    function Encode(): seq<Byte> { EncodeVarint(Key()) + Body() }
  }

  function EncodeAll(fields: seq<Field>): seq<Byte> {
    if fields == [] then [] else fields[0].Encode() + EncodeAll(fields[1..])
  }

  predicate AllValid(fields: seq<Field>) {
    forall i | 0 <= i < |fields| :: fields[i].Valid()
  }

  /** `part` stands in `data` at `pos`. */
  predicate Holds(data: seq<Byte>, pos: nat, part: seq<Byte>) {
    pos + |part| <= |data| && data[pos..pos + |part|] == part
  }

  lemma HoldsSplit(data: seq<Byte>, pos: nat, a: seq<Byte>, b: seq<Byte>)
    requires Holds(data, pos, a + b)
    ensures Holds(data, pos, a) && Holds(data, pos + |a|, b)
  {
    var part := data[pos..pos + |a + b|];
    assert part[..|a|] == a && part[|a|..] == b;
    assert data[pos..pos + |a|] == part[..|a|];
    assert data[pos + |a|..pos + |a| + |b|] == part[|a|..];
  }

  lemma Pow2Steps(shift: nat)
    ensures Pow2(shift + 7) == 128 * Pow2(shift)
  {
    assert Pow2(shift + 7) == 2 * Pow2(shift + 6) == 4 * Pow2(shift + 5) == 8 * Pow2(shift + 4);
    assert Pow2(shift + 4) == 2 * Pow2(shift + 3) == 4 * Pow2(shift + 2) == 8 * Pow2(shift + 1);
  }

  lemma {:induction false} Pow2Double(n: nat, p: nat)
    requires Pow2(n) == p
    ensures Pow2(2 * n) == p * p
  {
    if n > 0 {
      Pow2Double(n - 1, Pow2(n - 1));
      var h := Pow2(n - 1);
      assert Pow2(2 * n) == 2 * Pow2(2 * n - 1) == 4 * Pow2(2 * (n - 1)) == 4 * (h * h) == (2 * h) * (2 * h);
    }
  }

  lemma WordIsPow2()
    ensures Pow2(70) == 64 * WORD
  {
    Pow2Double(8, 256);
    Pow2Double(16, 65536);
    Pow2Double(32, 4294967296);
    var n := 63;
    Pow2Steps(n);
    assert Pow2(n + 1) == 2 * Pow2(n);
  }

  /** The number a run of bytes stands for: seven bits each, least significant first. */
  function Value(bytes: seq<Byte>): nat {
    if bytes == [] then 0 else bytes[0] % 128 + 128 * Value(bytes[1..])
  }

  /** Only the last byte lacks the continuation bit. */
  predicate IsVarint(bytes: seq<Byte>) {
    && bytes != [] && bytes[|bytes| - 1] < 128
    && forall i | 0 <= i < |bytes| - 1 :: bytes[i] >= 128
  }

  lemma {:induction false} OrZero(b: nat)
    ensures Or(0, b) == b
  {
    if b > 0 {
      OrZero(b / 2);
    }
  }

  lemma HalfOfProduct(q: nat, p: nat)
    ensures q * (2 * p) % 2 == 0 && q * (2 * p) / 2 == q * p
  {
    assert q * (2 * p) == 2 * (q * p);
  }

  /** Common bits are kept. */
  lemma {:induction false} OrSelf(a: nat)
    ensures Or(a, a) == a
  {
    if a > 0 {
      OrSelf(a / 2);
    }
  }

  /** Numbers without common bits are or-ed by adding. */
  lemma {:induction false} OrDisjoint(value: nat, q: nat, s: nat)
    requires value < Pow2(s)
    ensures Or(value, q * Pow2(s)) == value + q * Pow2(s)
  {
    if s == 0 {
      OrZero(q);
    } else {
      var p := Pow2(s - 1);
      HalfOfProduct(q, p);
      OrDisjoint(value / 2, q, s - 1);
      assert Or(value, q * Pow2(s)) == value % 2 + 2 * (value / 2 + q * p);
      assert 2 * (q * p) == q * Pow2(s);
    }
  }

  lemma {:induction false} Pow2Splits(n: nat, s: nat)
    requires s <= n
    ensures Pow2(n) == Pow2(n - s) * Pow2(s)
  {
    if s > 0 {
      Pow2Splits(n - 1, s - 1);
      var a, b := Pow2(n - s), Pow2(s - 1);
      assert 2 * (a * b) == a * (2 * b);
    }
  }

  lemma WordIs()
    ensures Pow2(64) == WORD
  {
    Pow2Double(8, 256);
    Pow2Double(16, 65536);
    Pow2Double(32, 4294967296);
  }

  lemma QuotientTimes(d: nat, k: nat, p: nat)
    requires k > 0
    ensures d * p == d / k * (k * p) + d % k * p
  {
    var q, r := d / k, d % k;
    assert d == q * k + r;
    assert (q * k + r) * p == q * k * p + r * p;
    assert q * k * p == q * (k * p);
  }

  lemma RestFits(rest: nat, k: nat, p: nat)
    requires rest < k
    ensures rest * p + p <= k * p
  {
    var gap := k - rest - 1;
    assert gap * p >= 0;
    assert k * p == (rest + 1 + gap) * p == rest * p + p + gap * p;
  }

  lemma AtLeastOnce(z: int, m: nat)
    ensures z >= 1 ==> z * m >= m
    ensures z <= -1 ==> z * m + m <= 0
  {
    if z >= 1 {
      assert (z - 1) * m >= 0;
    } else if z <= -1 {
      assert (-z - 1) * m >= 0;
    }
  }

  lemma RemainderIs(x: nat, m: nat, q: nat, r: nat)
    requires m > 0 && x == q * m + r && r < m
    ensures x % m == r
  {
    var z := q - x / m;
    assert z * m == q * m - x / m * m;
    AtLeastOnce(z, m);
  }

  /** A multiple of p, cut to a multiple of k p, and the same with something below p added. */
  lemma CutMultiple(value: nat, d: nat, k: nat, p: nat)
    requires value < p && k > 0
    ensures k * p > 0 && d * p % (k * p) == d % k * p
    ensures (value + d * p) % (k * p) == value + d % k * p
  {
    QuotientTimes(d, k, p);
    RestFits(d % k, k, p);
    var q, r := d / k, d % k * p;
    assert r >= 0;
    RemainderIs(d * p, k * p, q, r);
    RemainderIs(value + d * p, k * p, q, value + r);
  }

  /** The sum that or-ing in the next digit amounts to. */
  function Plus(value: nat, b: Byte, shift: nat): nat {
    (value + b % 128 * Pow2(shift)) % WORD
  }

  /** The bits read so far lie below the next digit, so or-ing it in is adding it; bits beyond 64 are cut off. */
  lemma OrIsSum(value: nat, b: Byte, shift: nat)
    requires shift <= 64 && value < Pow2(shift)
    ensures OrShifted(value, b, shift) == Plus(value, b, shift)
  {
    var d, k, p := b % 128, Pow2(64 - shift), Pow2(shift);
    WordIs();
    Pow2Splits(64, shift);
    CutMultiple(value, d, k, p);
    OrDisjoint(value, d % k, shift);
  }

  /** And the bits read then lie below the digit after it. */
  lemma BitsStayDisjoint(value: nat, b: Byte, shift: nat)
    requires shift <= 64 && value < Pow2(shift)
    ensures OrShifted(value, b, shift) < Pow2(shift + 7)
  {
    OrIsSum(value, b, shift);
    PlusBelow(value, b, shift);
  }

  lemma PlusBelow(value: nat, b: Byte, shift: nat)
    requires value < Pow2(shift)
    ensures Plus(value, b, shift) < Pow2(shift + 7)
  {
    var p := Pow2(shift);
    Pow2Steps(shift);
    DigitBelow(value, b % 128, p);
    ModAtMost(value + b % 128 * p);
  }

  lemma DigitBelow(value: nat, digit: nat, p: nat)
    requires value < p && digit < 128
    ensures value + digit * p < 128 * p
  {
    var rest := 127 - digit;
    assert rest * p >= 0;
    assert (digit + rest) * p == digit * p + rest * p;
  }

  lemma ModAtMost(x: nat)
    ensures x % WORD <= x
  {
  }

  lemma ModStep(acc: nat, digit: nat, rest: nat, p: nat)
    ensures ((acc + digit * p) % WORD + rest * (128 * p)) % WORD == (acc + (digit + 128 * rest) * p) % WORD
  {
    var a := acc + digit * p;
    assert (digit + 128 * rest) * p == digit * p + rest * (128 * p);
    ModAdd(a, rest * (128 * p));
  }

  lemma ModAdd(a: nat, b: nat)
    ensures (a % WORD + b) % WORD == (a + b) % WORD
  {
    var q := a / WORD;
    assert a == q * WORD + a % WORD;
    assert (a + b) == q * WORD + (a % WORD + b);
  }

  function Accumulated(acc: nat, value: nat, shift: nat): nat {
    (acc + value * Pow2(shift)) % WORD
  }

  lemma AccumulateByte(acc: nat, bytes: seq<Byte>, shift: nat)
    requires bytes != []
    ensures Accumulated(Plus(acc, bytes[0], shift), Value(bytes[1..]), shift + 7)
         == Accumulated(acc, Value(bytes), shift)
  {
    var p, rest := Pow2(shift), Value(bytes[1..]);
    Pow2Steps(shift);
    ModStep(acc, bytes[0] % 128, rest, p);
    assert Value(bytes) == bytes[0] % 128 + 128 * rest;
  }

  lemma LastByte(acc: nat, bytes: seq<Byte>, shift: nat)
    requires |bytes| == 1
    ensures Plus(acc, bytes[0], shift) == Accumulated(acc, Value(bytes), shift)
  {
    assert Value(bytes[1..]) == 0;
  }

  lemma DropFirst(data: seq<Byte>, pos: nat, bytes: seq<Byte>)
    requires bytes != [] && Holds(data, pos, bytes)
    ensures data[pos] == bytes[0] && Holds(data, pos + 1, bytes[1..])
  {
    assert bytes == bytes[..1] + bytes[1..];
    assert data[pos] == data[pos..pos + |bytes|][0];
    HoldsSplit(data, pos, bytes[..1], bytes[1..]);
  }

  /** Any varint of at most ten bytes is read as its value modulo 2 to the 64; excess bits are lost silently. */
  lemma {:induction false} VarintValue(data: seq<Byte>, pos: nat, bytes: seq<Byte>, shift: nat, acc: nat)
    requires Holds(data, pos, bytes) && IsVarint(bytes) && shift + 7 * |bytes| <= 70 && acc < Pow2(shift)
    ensures VarintFrom(data, pos, shift, acc) == Got(Accumulated(acc, Value(bytes), shift), pos + |bytes|)
    decreases |bytes|
  {
    var next := Plus(acc, bytes[0], shift);
    DropFirst(data, pos, bytes);
    OrIsSum(acc, bytes[0], shift);
    if |bytes| > 1 {
      AccumulateByte(acc, bytes, shift);
      PlusBelow(acc, bytes[0], shift);
      VarintValue(data, pos + 1, bytes[1..], shift + 7, next);
    } else {
      LastByte(acc, bytes, shift);
    }
  }

  lemma MoreBytes(b: Byte, rest: seq<Byte>)
    requires b >= 128 && IsVarint(rest)
    ensures IsVarint([b] + rest) && Value([b] + rest) == b % 128 + 128 * Value(rest)
  {
    var bytes := [b] + rest;
    assert bytes[1..] == rest;
    forall i | 0 <= i < |bytes| - 1
      ensures bytes[i] >= 128
    {
      assert bytes[i] == if i == 0 then b else rest[i - 1];
    }
  }

  lemma {:induction false} EncodedValue(v: nat)
    ensures IsVarint(EncodeVarint(v)) && Value(EncodeVarint(v)) == v
  {
    if v >= 128 {
      EncodedValue(v / 128);
      MoreBytes(v % 128 + 128, EncodeVarint(v / 128));
    }
  }

  lemma {:induction false} EncodedLength(v: nat, n: nat)
    requires n > 0 && v < Pow2(7 * n)
    ensures |EncodeVarint(v)| <= n
  {
    if v >= 128 {
      if n == 1 {
        Pow2Steps(0);
      } else {
        Pow2Steps(7 * (n - 1));
        EncodedLength(v / 128, n - 1);
      }
    }
  }

  lemma VarintReads(data: seq<Byte>, pos: nat, bytes: seq<Byte>)
    requires Holds(data, pos, bytes) && IsVarint(bytes) && |bytes| <= 10
    ensures VarintAt(data, pos) == Got(Value(bytes) % WORD, pos + |bytes|)
  {
    VarintValue(data, pos, bytes, 0, 0);
    assert Value(bytes) * Pow2(0) == Value(bytes);
  }

  lemma GotIff(r: Read<nat>, v: nat, end: nat)
    requires r == Got(v % WORD, end)
    ensures r == Got(v, end) <==> v < WORD
  {
  }

  /** Reading gives the value that was written exactly when it fits into 64 bits. */
  lemma VarintKeepsValueIff(data: seq<Byte>, pos: nat, bytes: seq<Byte>)
    requires Holds(data, pos, bytes) && IsVarint(bytes) && |bytes| <= 10
    ensures VarintAt(data, pos) == Got(Value(bytes), pos + |bytes|) <==> Value(bytes) < WORD
  {
    VarintReads(data, pos, bytes);
    GotIff(VarintAt(data, pos), Value(bytes), pos + |bytes|);
  }

  /** Continued digits of zero. */
  function Zeros(n: nat): seq<Byte> {
    if n == 0 then [] else [128] + Zeros(n - 1)
  }

  lemma {:induction false} ZeroDigits(n: nat, last: Byte)
    requires last < 128
    ensures IsVarint(Zeros(n) + [last]) && Value(Zeros(n) + [last]) == last * Pow2(7 * n)
  {
    if n == 0 {
      OneDigit(last);
    } else {
      ZeroDigits(n - 1, last);
      OneMoreZero(Zeros(n - 1) + [last], last, Pow2(7 * (n - 1)));
      assert Zeros(n) + [last] == [128] + (Zeros(n - 1) + [last]);
      Pow2Steps(7 * (n - 1));
    }
  }

  lemma OneDigit(last: Byte)
    requires last < 128
    ensures Zeros(0) + [last] == [last] && IsVarint([last]) && Value([last]) == last * Pow2(0)
  {
    assert [last][1..] == [];
  }

  lemma OneMoreZero(rest: seq<Byte>, last: nat, p: nat)
    requires IsVarint(rest) && Value(rest) == last * p
    ensures IsVarint([128] + rest) && Value([128] + rest) == last * (128 * p)
  {
    MoreBytes(128, rest);
    assert 128 * (last * p) == last * (128 * p);
  }

  lemma TenBytesForWord() returns (bytes: seq<Byte>)
    ensures IsVarint(bytes) && |bytes| == 10 && Value(bytes) == WORD
  {
    bytes := Zeros(9) + [2];
    ZeroDigits(9, 2);
    WordIs();
  }

  /** Nine continued zero digits and a two stand for 2 to the 64, and are read as zero, without an error. */
  lemma ExcessBitsAreLost() returns (bytes: seq<Byte>)
    ensures IsVarint(bytes) && |bytes| == 10 && Value(bytes) == WORD && VarintAt(bytes, 0) == Got(0, 10)
  {
    bytes := TenBytesForWord();
    VarintReads(bytes, 0, bytes);
  }

  /** What printing promises: a varint of at most ten bytes with the printed value. */
  lemma EncodingOf(v: nat) returns (bytes: seq<Byte>)
    requires v < WORD
    ensures bytes == EncodeVarint(v)
    ensures IsVarint(bytes) && |bytes| <= 10 && Value(bytes) == v
  {
    WordIsPow2();
    EncodedLength(v, 10);
    EncodedValue(v);
    bytes := EncodeVarint(v);
  }

  /** Every 64-bit value is read back, and exactly its encoding is consumed. */
  lemma VarintRoundTrip(data: seq<Byte>, pos: nat, v: nat)
    requires v < WORD && Holds(data, pos, EncodeVarint(v))
    ensures VarintAt(data, pos) == Got(v, pos + |EncodeVarint(v)|)
  {
    var bytes := EncodingOf(v);
    VarintReads(data, pos, bytes);
    GotIff(VarintAt(data, pos), v, pos + |bytes|);
  }

  predicate EndsAt(data: seq<Byte>, pos: nat, k: nat) {
    pos + k < |data| && data[pos + k] < 128
  }

  ghost predicate EndsWithin(data: seq<Byte>, pos: nat, count: nat) {
    exists k: nat :: k < count && EndsAt(data, pos, k)
  }

  lemma EndsLater(data: seq<Byte>, pos: nat, next: nat, count: nat)
    requires next == pos + 1 <= |data| && data[pos] >= 128
    ensures EndsWithin(data, pos, count + 1) <==> EndsWithin(data, next, count)
  {
    if k: nat :| k < count + 1 && EndsAt(data, pos, k) {
      assert EndsAt(data, next, k - 1);
    }
    if k: nat :| k < count && EndsAt(data, next, k) {
      assert EndsAt(data, pos, k + 1);
    }
  }

  lemma {:induction false} VarintEnds(data: seq<Byte>, pos: nat, read: nat, value: nat)
    requires read <= 10
    ensures VarintFrom(data, pos, 7 * read, value).Got? <==> EndsWithin(data, pos, 10 - read)
    decreases 10 - read
  {
    if read < 10 && pos < |data| {
      if data[pos] < 128 {
        assert EndsAt(data, pos, 0);
      } else {
        VarintEnds(data, pos + 1, read + 1, OrShifted(value, data[pos], 7 * read));
        EndsLater(data, pos, pos + 1, 9 - read);
      }
    }
  }

  /** On arbitrary bytes: a varint is read exactly when one of the next ten bytes ends it. */
  lemma VarintReadIff(data: seq<Byte>, pos: nat)
    ensures VarintAt(data, pos).Got? <==> EndsWithin(data, pos, 10)
  {
    VarintEnds(data, pos, 0, 0);
  }

  lemma BytesAfterLength(data: seq<Byte>, pos: nat, start: nat, bytes: seq<Byte>)
    requires pos <= |data| && VarintAt(data, pos) == Got(|bytes|, start) && Holds(data, start, bytes)
    ensures BytesAt(data, pos) == Got(bytes, start + |bytes|)
  {
  }

  lemma BytesRoundTrip(data: seq<Byte>, pos: nat, bytes: seq<Byte>)
    requires |bytes| < WORD && Holds(data, pos, EncodeVarint(|bytes|) + bytes)
    ensures pos <= |data| && BytesAt(data, pos) == Got(bytes, pos + |EncodeVarint(|bytes|) + bytes|)
  {
    HoldsSplit(data, pos, EncodeVarint(|bytes|), bytes);
    VarintRoundTrip(data, pos, |bytes|);
    BytesAfterLength(data, pos, pos + |EncodeVarint(|bytes|)|, bytes);
  }

  lemma KeyParts(f: Field)
    ensures f.Key() / 8 == f.no && f.Key() % 8 == f.Wire()
  {
  }

  lemma BodyRoundTrip(data: seq<Byte>, pos: nat, f: Field)
    requires f.Valid() && Holds(data, pos, f.Body())
    ensures f.Bytes? ==> BytesAt(data, pos) == Got(f.bytes, pos + |f.Body()|)
    ensures !f.Bytes? ==> SkipAt(data, pos, f.Wire()) == Got((), pos + |f.Body()|)
  {
    match f
    case Varint(_, v) => VarintRoundTrip(data, pos, v);
    case Bytes(_, bytes) => BytesRoundTrip(data, pos, bytes);
    case _ =>
  }

  function Raw(f: Field): RawField {
    RawField(f.no, f.Wire(), if f.Bytes? then f.bytes else [])
  }

  lemma FieldFromParts(data: seq<Byte>, pos: nat, key: nat, body: nat, raw: RawField, end: nat)
    requires VarintAt(data, pos) == Got(key, body) && key / 8 == raw.no && key % 8 == raw.wire
    requires body <= |data|
    requires if raw.wire == 2 then BytesAt(data, body) == Got(raw.bytes, end)
             else SkipAt(data, body, raw.wire) == Got((), end) && raw.bytes == []
    ensures FieldAt(data, pos) == Got(raw, end)
  {
  }

  /** An encoded field is read back and consumed exactly. */
  lemma FieldRoundTrip(data: seq<Byte>, pos: nat, f: Field)
    requires f.Valid() && Holds(data, pos, f.Encode())
    ensures FieldAt(data, pos) == Got(Raw(f), pos + |f.Encode()|)
  {
    HoldsSplit(data, pos, EncodeVarint(f.Key()), f.Body());
    VarintRoundTrip(data, pos, f.Key());
    var body := pos + |EncodeVarint(f.Key())|;
    KeyParts(f);
    BodyRoundTrip(data, body, f);
    FieldFromParts(data, pos, f.Key(), body, Raw(f), body + |f.Body()|);
  }

  /** The name a layer's fields give it. */
  function NameOfLayer(fields: seq<Field>): seq<Byte> {
    if fields == [] then []
    else if fields[0].no == 1 && fields[0].Bytes? then fields[0].bytes
    else NameOfLayer(fields[1..])
  }

  /** The data ends here, or what follows is no field. */
  predicate Ends(data: seq<Byte>, pos: nat) {
    pos >= |data| || FieldAt(data, pos).Failed?
  }

  /** Groups and the wire types not in use are no fields. */
  lemma UnknownWireEnds(data: seq<Byte>, pos: nat)
    requires VarintAt(data, pos).Got? && VarintAt(data, pos).value % 8 in {3, 4, 6, 7}
    ensures Ends(data, pos)
  {
  }

  /** An encoded field of which bytes are missing at the end of the data is none. */
  lemma CutFieldEnds(data: seq<Byte>, n: nat, pos: nat, f: Field)
    requires f.Valid() && Holds(data, pos, f.Encode()) && n < pos + |f.Encode()|
    ensures Ends(data[..n], pos)
  {
    FieldRoundTrip(data, pos, f);
    if FieldAt(data[..n], pos).Got? {
      FieldOfPrefix(data, n, pos);
    }
  }

  /** The first of some encoded fields is read, and the others follow. */
  lemma FirstOfEncoded(data: seq<Byte>, pos: nat, fields: seq<Field>, end: nat) returns (next: nat)
    requires fields != [] && AllValid(fields) && Holds(data, pos, EncodeAll(fields)) && end == pos + |EncodeAll(fields)|
    ensures FieldAt(data, pos) == Got(Raw(fields[0]), next) && pos < next <= |data|
    ensures AllValid(fields[1..]) && Holds(data, next, EncodeAll(fields[1..])) && end == next + |EncodeAll(fields[1..])|
  {
    next := pos + |fields[0].Encode()|;
    HoldsSplit(data, pos, fields[0].Encode(), EncodeAll(fields[1..]));
    FieldRoundTrip(data, pos, fields[0]);
  }

  /** The name found is that of the fields up to where the data ends or stops making sense. */
  lemma {:induction false} LayerNameOfEncoded(data: seq<Byte>, pos: nat, fields: seq<Field>, end: nat)
    requires AllValid(fields) && Holds(data, pos, EncodeAll(fields)) && end == pos + |EncodeAll(fields)|
    requires Ends(data, end)
    ensures LayerNameAt(data, pos) == NameOfLayer(fields)
    decreases |fields|
  {
    if fields != [] {
      var next := FirstOfEncoded(data, pos, fields, end);
      LayerNameOfEncoded(data, next, fields[1..], end);
    }
  }

  /** What a tile is made of: layers, whose fields may end in bytes that are none, and fields that are not layers. */
  datatype Part = Layer(fields: seq<Field>, tail: seq<Byte>) | Other(field: Field) {
    function AsField(): Field {
      match this
      case Layer(fields, tail) => Bytes(3, EncodeAll(fields) + tail)
      case Other(f) => f
    }

    predicate Valid() {
      && AsField().Valid()
      && match this
         case Layer(fields, tail) => AllValid(fields) && Ends(EncodeAll(fields) + tail, |EncodeAll(fields)|)
         case Other(f) => !(f.no == 3 && f.Bytes?)
    }
  }

  function Fields(parts: seq<Part>): seq<Field> {
    if parts == [] then [] else [parts[0].AsField()] + Fields(parts[1..])
  }

  function EncodeTile(parts: seq<Part>): seq<Byte> {
    EncodeAll(Fields(parts))
  }

  predicate ValidParts(parts: seq<Part>) {
    parts == [] || (parts[0].Valid() && ValidParts(parts[1..]))
  }

  lemma {:induction false} FieldsValid(parts: seq<Part>)
    requires ValidParts(parts)
    ensures AllValid(Fields(parts))
  {
    if parts != [] {
      FieldsValid(parts[1..]);
    }
  }

  /** Every layer's name, in order. */
  function TileNames(parts: seq<Part>): seq<seq<Byte>> {
    if parts == [] then []
    else (if parts[0].Layer? then [NameOfLayer(parts[0].fields)] else []) + TileNames(parts[1..])
  }

  function NotEmpty(): seq<Byte> -> bool {
    (name: seq<Byte>) => name != []
  }

  /** The non-empty names of a tile's layers, in order. */
  function LayerNames(parts: seq<Part>): seq<seq<Byte>> {
    Filter(TileNames(parts), NotEmpty())
  }

  /** What one part adds to the names found so far. */
  lemma AddPart(names: seq<seq<Byte>>, part: Part)
    requires part.Valid()
    ensures AddField(names, Raw(part.AsField()))
         == if part.Layer? then AddName(names, NameOfLayer(part.fields)) else names
  {
    if part.Layer? {
      LayerNameOfEncoded(EncodeAll(part.fields) + part.tail, 0, part.fields, |EncodeAll(part.fields)|);
    }
  }

  lemma LayerNamesStep(names: seq<seq<Byte>>, parts: seq<Part>)
    requires parts != []
    ensures AddNew(names, LayerNames(parts))
         == AddNew(if parts[0].Layer? then AddName(names, NameOfLayer(parts[0].fields)) else names, LayerNames(parts[1..]))
  {
    if parts[0].Layer? {
      assert TileNames(parts)[1..] == TileNames(parts[1..]);
      if NameOfLayer(parts[0].fields) != [] {
        assert LayerNames(parts)[1..] == LayerNames(parts[1..]);
      } else {
        assert LayerNames(parts) == LayerNames(parts[1..]);
      }
    } else {
      assert TileNames(parts) == TileNames(parts[1..]);
    }
  }

  function AddFields(names: seq<seq<Byte>>, fields: seq<Field>): seq<seq<Byte>>
    decreases |fields|
  {
    if fields == [] then names else AddFields(AddField(names, Raw(fields[0])), fields[1..])
  }

  lemma {:induction false} NamesOfEncoded(data: seq<Byte>, pos: nat, fields: seq<Field>, names: seq<seq<Byte>>, end: nat)
    requires AllValid(fields) && Holds(data, pos, EncodeAll(fields)) && end == pos + |EncodeAll(fields)|
    requires Ends(data, end)
    ensures NamesFrom(data, pos, names) == AddFields(names, fields)
    decreases |fields|
  {
    if fields != [] {
      var next := FirstOfEncoded(data, pos, fields, end);
      NamesOfEncoded(data, next, fields[1..], AddField(names, Raw(fields[0])), end);
    }
  }

  lemma {:induction false} AddParts(names: seq<seq<Byte>>, parts: seq<Part>)
    requires ValidParts(parts)
    ensures AddFields(names, Fields(parts)) == AddNew(names, LayerNames(parts))
    decreases |parts|
  {
    if parts != [] {
      var more := AddField(names, Raw(parts[0].AsField()));
      assert Fields(parts)[1..] == Fields(parts[1..]);
      AddPart(names, parts[0]);
      LayerNamesStep(names, parts);
      AddParts(more, parts[1..]);
    }
  }

  /**
   Scanning an encoded tile gives its distinct non-empty layer names in first-occurrence order, up to where
   the tile ends or stops making sense.
   */
  lemma TileRoundTrip(data: seq<Byte>, parts: seq<Part>)
    requires ValidParts(parts) && Holds(data, 0, EncodeTile(parts)) && Ends(data, |EncodeTile(parts)|)
    ensures FirstOccurrences(NamesFrom(data, 0, []), LayerNames(parts))
  {
    FieldsValid(parts);
    NamesOfEncoded(data, 0, Fields(parts), [], |EncodeTile(parts)|);
    AddParts([], parts);
    DistinctElements(LayerNames(parts));
  }
}

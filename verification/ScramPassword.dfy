/**
 The SCRAM-SHA-1 password scheme (password-scheme-scram.c, RFC 5802).  SHA-1 and HMAC-SHA-1 are parameters
 with 20-byte results.
 */
module ScramPassword {
  import opened Encoding
  import opened TextFields
  import opened Wrappers

  const RESULTLEN := 20
  const MIN_ITERATE_COUNT := 4096
  const MAX_ITERATE_COUNT := 0x7FFF_FFFF
  const DEFAULT_ITERATE_COUNT := 4096
  const SALT_LEN := 16

  type Bytes = seq<Byte>

  datatype Crypto = Crypto(h: Bytes -> Bytes, hmac: (Bytes, Bytes) -> Bytes) {
    ghost predicate Valid() {
      (forall x :: |h(x)| == RESULTLEN) && (forall k, x :: |hmac(k, x)| == RESULTLEN)
    }
  }

  // ---------------------------------------------------------------- exclusive or

  function Pow2(n: nat): nat {
    if n == 0 then 1 else 2 * Pow2(n - 1)
  }

  /** The exclusive or of the lowest `n` bits. */
  function XorBits(n: nat, a: nat, b: nat): (r: nat)
    ensures r < Pow2(n)
  {
    if n == 0 then 0 else 2 * XorBits(n - 1, a / 2, b / 2) + (a + b) % 2
  }

  function Xor(a: Byte, b: Byte): Byte {
    assert Pow2(8) == 256;
    XorBits(8, a, b)
  }

  lemma {:induction false} XorBitsTwice(n: nat, a: nat, b: nat)
    requires a < Pow2(n)
    ensures XorBits(n, XorBits(n, a, b), b) == a
  {
    if n > 0 {
      XorBitsTwice(n - 1, a / 2, b / 2);
      var x := XorBits(n - 1, a / 2, b / 2);
      XorBitsStep(n, a, b);
      XorBitsStep(n, XorBits(n, a, b), b);
      hide XorBits, Pow2;
      LowBit(x, a, b);
    }
  }

  lemma XorBitsStep(n: nat, a: nat, b: nat)
    requires n > 0
    ensures XorBits(n, a, b) == 2 * XorBits(n - 1, a / 2, b / 2) + (a + b) % 2
  {
  }

  lemma LowBit(x: nat, a: nat, b: nat)
    ensures (2 * x + (a + b) % 2) / 2 == x && (2 * x + (a + b) % 2 + b) % 2 == a % 2
  {
  }

  /** A bit of a number, the lowest one first. */
  function Bit(a: nat, k: nat): nat {
    if k == 0 then a % 2 else Bit(a / 2, k - 1)
  }

  /** Every bit of the result is set exactly if the two bits differ. */
  lemma {:induction false} XorBitwise(n: nat, a: nat, b: nat, k: nat)
    requires k < n
    ensures Bit(XorBits(n, a, b), k) == if Bit(a, k) == Bit(b, k) then 0 else 1
  {
    XorBitsStep(n, a, b);
    BitStep(XorBits(n, a, b), k);
    BitStep(a, k);
    BitStep(b, k);
    hide XorBits, Pow2, Bit;
    Differ(XorBits(n - 1, a / 2, b / 2), a, b);
    if k > 0 {
      XorBitwise(n - 1, a / 2, b / 2, k - 1);
    }
  }

  lemma BitStep(a: nat, k: nat)
    ensures Bit(a, 0) == a % 2 && (k > 0 ==> Bit(a, k) == Bit(a / 2, k - 1))
  {
  }

  lemma Differ(x: nat, a: nat, b: nat)
    ensures (2 * x + (a + b) % 2) / 2 == x && (2 * x + (a + b) % 2) % 2 == if a % 2 == b % 2 then 0 else 1
  {
  }

  function XorAll(x: Bytes, y: Bytes): (r: Bytes)
    requires |x| == |y|
    ensures |r| == |x| && forall i :: 0 <= i < |x| ==> r[i] == Xor(x[i], y[i])
  {
    seq(|x|, i requires 0 <= i < |x| => Xor(x[i], y[i]))
  }

  lemma XorTwice(x: Bytes, y: Bytes)
    requires |x| == |y|
    ensures XorAll(XorAll(x, y), y) == x
  {
    forall i | 0 <= i < |x|
      ensures Xor(Xor(x[i], y[i]), y[i]) == x[i]
    {
      assert Pow2(8) == 256;
      XorBitsTwice(8, x[i], y[i]);
    }
  }

  // ---------------------------------------------------------------- Hi

  const INT_1: Bytes := [0, 0, 0, 1]

  /** `U1`, `U2`, ... of section 2.2 of RFC 5802. */
  function U(c: Crypto, str: Bytes, salt: Bytes, i: nat): Bytes
    requires i > 0
  {
    if i == 1 then c.hmac(str, salt + INT_1) else c.hmac(str, U(c, str, salt, i - 1))
  }

  function Hi(c: Crypto, str: Bytes, salt: Bytes, i: nat): (r: Bytes)
    requires c.Valid() && i > 0
    ensures |r| == RESULTLEN
  {
    if i == 1 then U(c, str, salt, 1) else XorAll(Hi(c, str, salt, i - 1), U(c, str, salt, i))
  }

  /** The loops of `Hi`, folding each `U` into `result` in place. */
  method ComputeHi(c: Crypto, str: Bytes, salt: Bytes, i: nat, result: array<Byte>)
    requires c.Valid() && result.Length == RESULTLEN
    modifies result
    ensures result[..] == Hi(c, str, salt, if i == 0 then 1 else i)
  {
    var u := c.hmac(str, salt + INT_1);
    for k := 0 to RESULTLEN
      invariant result[..k] == u[..k]
    {
      result[k] := u[k];
    }
    var j := 2;
    while j <= i
      invariant 2 <= j && (j <= i + 1 || j == 2) && |u| == RESULTLEN && u == U(c, str, salt, j - 1)
                && result[..] == Hi(c, str, salt, j - 1)
    {
      u := c.hmac(str, u);
      ghost var before := result[..];
      for k := 0 to RESULTLEN
        invariant result[..k] == XorAll(before, u)[..k] && result[k..] == before[k..]
      {
        result[k] := Xor(result[k], u[k]);
      }
      j := j + 1;
    }
  }

  /** Section 2.2 of RFC 5802: U1 is the HMAC of the salt and a four-byte 1, each later one that of the one before. */
  lemma HiMeans(c: Crypto, str: Bytes, salt: Bytes, i: nat)
    requires c.Valid() && i > 0
    ensures U(c, str, salt, 1) == c.hmac(str, salt + [0, 0, 0, 1])
    ensures U(c, str, salt, i + 1) == c.hmac(str, U(c, str, salt, i))
    ensures Hi(c, str, salt, 1) == U(c, str, salt, 1)
    ensures forall k :: 0 <= k < 20 ==>
              Hi(c, str, salt, i + 1)[k] == XorBits(8, Hi(c, str, salt, i)[k], c.hmac(str, U(c, str, salt, i))[k])
  {
  }

  // ---------------------------------------------------------------- the stored entry

  const CLIENT_KEY: Bytes := [67, 108, 105, 101, 110, 116, 32, 75, 101, 121]
  const SERVER_KEY: Bytes := [83, 101, 114, 118, 101, 114, 32, 75, 101, 121]

  function ClientKey(c: Crypto, password: Bytes, salt: Bytes, iterations: nat): Bytes
    requires c.Valid() && iterations > 0
  {
    c.hmac(Hi(c, password, salt, iterations), CLIENT_KEY)
  }

  function StoredKey(c: Crypto, password: Bytes, salt: Bytes, iterations: nat): Bytes
    requires c.Valid() && iterations > 0
  {
    c.h(ClientKey(c, password, salt, iterations))
  }

  function ServerKey(c: Crypto, password: Bytes, salt: Bytes, iterations: nat): Bytes
    requires c.Valid() && iterations > 0
  {
    c.hmac(Hi(c, password, salt, iterations), SERVER_KEY)
  }

  /** The keys of section 3 of RFC 5802. */
  lemma KeysMean(c: Crypto, password: Bytes, salt: Bytes, iterations: nat)
    requires c.Valid() && iterations > 0
    ensures var salted := Hi(c, password, salt, iterations);
            && StoredKey(c, password, salt, iterations) == c.h(c.hmac(salted, Ascii("Client Key")))
            && ServerKey(c, password, salt, iterations) == c.hmac(salted, Ascii("Server Key"))
  {
    hide Hi;
    assert CLIENT_KEY == Ascii("Client Key") && SERVER_KEY == Ascii("Server Key");
  }

  datatype Entry = Entry(iterations: nat, salt: Bytes, storedKey: Bytes, serverKey: Bytes)

  function Format(iterations: nat, salt: Bytes, storedKey: Bytes, serverKey: Bytes): Bytes {
    Join([ToDecimal(iterations), salt, Encode64(storedKey), Encode64(serverKey)])
  }

  datatype Error = BadFormat | BadIterations | BadStoredKey | BadServerKey

  function Key(text: Bytes): Option<Bytes> {
    var r := Decode64(text);
    if r.ret < 0 || |r.bytes| != RESULTLEN then None else Some(r.bytes)
  }

  /** What `scram_sha1_scheme_parse` makes of an entry; the salt stays encoded. */
  function Parsed(credentials: Bytes): (r: Result<Entry, Error>)
    ensures r.Ok? ==> MIN_ITERATE_COUNT <= r.value.iterations <= MAX_ITERATE_COUNT
    ensures r.Ok? ==>
              |r.value.storedKey| == |r.value.serverKey| == RESULTLEN && COMMA !in r.value.salt && 0 !in r.value.salt
  {
    var fields := Split(UpToNul(credentials));
    if |fields| != 4 then Err(BadFormat)
    else
      var iterations := ToUint(fields[0]);
      if iterations.None? || !(MIN_ITERATE_COUNT <= iterations.value <= MAX_ITERATE_COUNT) then Err(BadIterations)
      else if Key(fields[2]).None? then Err(BadStoredKey)
      else if Key(fields[3]).None? then Err(BadServerKey)
      else Ok(Entry(iterations.value, fields[1], Key(fields[2]).value, Key(fields[3]).value))
  }

  lemma NoCommas(s: Bytes)
    ensures COMMA !in Encode64(s) && 0 !in Encode64(s)
  {
    Base64Shape(s);
    assert DecodeDigit(COMMA) == INVALID && DecodeDigit(0) == INVALID;
  }

  /** Every well-formed entry is read back as it was written. */
  lemma EntryRoundTrip(iterations: nat, salt: Bytes, storedKey: Bytes, serverKey: Bytes)
    requires MIN_ITERATE_COUNT <= iterations <= MAX_ITERATE_COUNT && COMMA !in salt && 0 !in salt
    requires |storedKey| == RESULTLEN && |serverKey| == RESULTLEN
    ensures Parsed(Format(iterations, salt, storedKey, serverKey)) == Ok(Entry(iterations, salt, storedKey, serverKey))
  {
    hide Encode64, Decode64, ToDecimal, Digits, Split, Join;
    DecimalRoundTrip(iterations);
    NoCommas(storedKey);
    NoCommas(serverKey);
    Base64RoundTrip(storedKey);
    Base64RoundTrip(serverKey);
    var fields := [ToDecimal(iterations), salt, Encode64(storedKey), Encode64(serverKey)];
    SplitOfJoin(fields);
    NoNuls(fields);
  }

  lemma {:induction false} NoNuls(fields: seq<Bytes>)
    requires forall f :: f in fields ==> 0 !in f
    ensures 0 !in Join(fields)
  {
    if |fields| > 1 {
      NoNuls(fields[1..]);
    }
  }

  /** The four fields of an entry: the number of iterations, the salt, the stored key and the server key. */
  lemma ParsedMeans(credentials: Bytes)
    ensures Parsed(credentials).Ok? ==>
              var e, fields := Parsed(credentials).value, Split(UpToNul(credentials));
              && |fields| == 4 && ToUint(fields[0]) == Some(e.iterations) && 4096 <= e.iterations <= 0x7FFF_FFFF
              && fields[1] == e.salt && |e.storedKey| == |e.serverKey| == 20
              && Decode64(fields[2]).bytes == e.storedKey && Decode64(fields[2]).ret >= 0
              && Decode64(fields[3]).bytes == e.serverKey && Decode64(fields[3]).ret >= 0
    ensures Parsed(credentials).Err? ==>
              var fields := Split(UpToNul(credentials));
              |fields| == 4 && ToUint(fields[0]).Some? && 4096 <= ToUint(fields[0]).value <= 0x7FFF_FFFF ==>
                exists i :: 2 <= i < 4 && (Decode64(fields[i]).ret < 0 || |Decode64(fields[i]).bytes| != 20)
  {
    hide Split, Decode64, Digits;
  }

  lemma EntryText(iterations: nat, salt: Bytes, storedKey: Bytes, serverKey: Bytes)
    ensures Format(iterations, salt, storedKey, serverKey)
            == ToDecimal(iterations) + Ascii(",") + salt + Ascii(",") + Encode64(storedKey) + Ascii(",")
               + Encode64(serverKey)
    ensures ToDecimal(4096) == Ascii("4096")
  {
    hide Join, Encode64, ToDecimal;
    JoinFour(ToDecimal(iterations), salt, Encode64(storedKey), Encode64(serverKey));
    assert Ascii(",") == [COMMA];
    DecimalMeans(0, 4);
    DecimalMeans(4, 0);
    DecimalMeans(40, 9);
    DecimalMeans(409, 6);
    assert ToDecimal(4096) == [52, 48, 57, 54] && Ascii("4096") == [52, 48, 57, 54];
  }

  /** `scram_sha1_scheme_parse` */
  method SchemeParse(credentials: Bytes) returns (r: Result<Entry, Error>)
    ensures r == Parsed(credentials)
  {
    var fields := Split(UpToNul(credentials));
    if |fields| != 4 {
      return Err(BadFormat);
    }
    var iterations := ToUint(fields[0]);
    if iterations.None? || iterations.value < MIN_ITERATE_COUNT || iterations.value > MAX_ITERATE_COUNT {
      return Err(BadIterations);
    }
    var ret, storedKey := Base64Decode(fields[2]);
    if ret < 0 || |storedKey| != RESULTLEN {
      return Err(BadStoredKey);
    }
    var serverKey;
    ret, serverKey := Base64Decode(fields[3]);
    if ret < 0 || |serverKey| != RESULTLEN {
      return Err(BadServerKey);
    }
    return Ok(Entry(iterations.value, fields[1], storedKey, serverKey));
  }

  /** `scram_sha1_generate` with the random bytes `salt`. */
  method Generate(c: Crypto, plaintext: Bytes, salt: Bytes) returns (entry: Bytes)
    requires c.Valid() && |salt| == SALT_LEN
    ensures entry == Format(DEFAULT_ITERATE_COUNT, Encode64(salt), StoredKey(c, plaintext, salt, DEFAULT_ITERATE_COUNT),
                            ServerKey(c, plaintext, salt, DEFAULT_ITERATE_COUNT))
    ensures entry == Ascii("4096,") + Encode64(salt) + Ascii(",") + Encode64(StoredKey(c, plaintext, salt, 4096))
                     + Ascii(",") + Encode64(ServerKey(c, plaintext, salt, 4096))
  {
    hide Encode64, ToDecimal, Hi;
    var text := Base64Encode(salt);
    entry := ToDecimal(DEFAULT_ITERATE_COUNT) + [COMMA] + text;
    var salted := new Byte[RESULTLEN](_ => 0);
    ComputeHi(c, plaintext, salt, DEFAULT_ITERATE_COUNT, salted);
    var clientKey := c.hmac(salted[..], CLIENT_KEY);
    var storedKey := c.h(clientKey);
    text := Base64Encode(storedKey);
    entry := entry + [COMMA] + text;
    var serverKey := c.hmac(salted[..], SERVER_KEY);
    text := Base64Encode(serverKey);
    entry := entry + [COMMA] + text;
    assert entry == Format(DEFAULT_ITERATE_COUNT, Encode64(salt), storedKey, serverKey) by {
      hide Join;
      JoinFour(ToDecimal(DEFAULT_ITERATE_COUNT), Encode64(salt), Encode64(storedKey), Encode64(serverKey));
    }
    EntryText(4096, Encode64(salt), storedKey, serverKey);
    assert Ascii("4096,") == Ascii("4096") + Ascii(",");
  }

  lemma JoinFour(a: Bytes, b: Bytes, c: Bytes, d: Bytes)
    ensures Join([a, b, c, d]) == a + [COMMA] + b + [COMMA] + c + [COMMA] + d
  {
    assert [a, b, c, d][1..] == [b, c, d] && [b, c, d][1..] == [c, d] && [c, d][1..] == [d];
    assert Join([c, d]) == c + [COMMA] + d;
    assert Join([b, c, d]) == b + [COMMA] + Join([c, d]);
    assert Join([a, b, c, d]) == a + [COMMA] + Join([b, c, d]);
  }

  /** What a generated entry parses to. */
  lemma GeneratedEntry(c: Crypto, password: Bytes, salt: Bytes)
    requires c.Valid()
    ensures var n := DEFAULT_ITERATE_COUNT;
            var storedKey, serverKey := StoredKey(c, password, salt, n), ServerKey(c, password, salt, n);
            Parsed(Format(n, Encode64(salt), storedKey, serverKey))
            == Ok(Entry(n, Encode64(salt), storedKey, serverKey))
  {
    hide Hi, Encode64;
    NoCommas(salt);
    EntryRoundTrip(DEFAULT_ITERATE_COUNT, Encode64(salt), StoredKey(c, password, salt, DEFAULT_ITERATE_COUNT),
                   ServerKey(c, password, salt, DEFAULT_ITERATE_COUNT));
  }

  /** `scram_sha1_verify`: 1 for a match, 0 for none, -1 for a malformed entry. */
  method Verify(c: Crypto, plaintext: Bytes, raw: Bytes) returns (ret: int)
    requires c.Valid()
    ensures match Parsed(raw)
            case Err(_) => ret == -1
            case Ok(entry) =>
              ret == if StoredKey(c, plaintext, Decode64(entry.salt).bytes, entry.iterations) == entry.storedKey
                     then 1 else 0
  {
    var parsed := SchemeParse(raw);
    if parsed.Err? {
      return -1;
    }
    var entry := parsed.value;
    var _, salt := Base64Decode(entry.salt);
    var salted := new Byte[RESULTLEN](_ => 0);
    ComputeHi(c, plaintext, salt, entry.iterations, salted);
    hide Hi;
    var clientKey := c.hmac(salted[..], CLIENT_KEY);
    ret := if entry.storedKey == c.h(clientKey) then 1 else 0;
  }

  /** A generated entry verifies, and so do just the passwords with the same stored key. */
  method GenerateAndVerify(c: Crypto, plaintext: Bytes, tried: Bytes, salt: Bytes) returns (ret: int)
    requires c.Valid() && |salt| == SALT_LEN
    ensures ret == 1 <==>
              StoredKey(c, tried, salt, DEFAULT_ITERATE_COUNT) == StoredKey(c, plaintext, salt, DEFAULT_ITERATE_COUNT)
    ensures tried == plaintext ==> ret == 1
  {
    hide Hi, Encode64, Decode64, Parsed, Format;
    var entry := Generate(c, plaintext, salt);
    GeneratedEntry(c, plaintext, salt);
    Base64RoundTrip(salt);
    ret := Verify(c, tried, entry);
  }
}

/**
 Password schemes (password-scheme.c): finding a scheme and encoding by name, decoding a stored password
 and generating one.  What a scheme computes is a parameter.
 */
module PasswordScheme {
  import opened Encoding
  import opened TextFields
  import opened Wrappers

  datatype PwEncoding = Plain | Base64 | Hex

  /** A `rawLen` of zero allows any length.  Without a `verify` of its own a scheme compares the generated password. */
  datatype Scheme = Scheme(name: string, defaultEncoding: PwEncoding, rawLen: nat,
                           generate: (seq<Byte>, seq<Byte>) -> seq<Byte>,
                           verify: Option<(seq<Byte>, seq<Byte>, seq<Byte>) -> int>)

  // ---------------------------------------------------------------- lookup

  function Lower(c: char): char {
    if 'A' <= c <= 'Z' then c - 'A' + 'a' else c
  }

  /** `strcasecmp(a, b) == 0` */
  predicate SameName(a: string, b: string) {
    |a| == |b| && forall i :: 0 <= i < |a| ==> Lower(a[i]) == Lower(b[i])
  }

  ghost predicate FirstNamed(schemes: seq<Scheme>, name: string, i: nat) {
    i < |schemes| && SameName(schemes[i].name, name) && forall j :: 0 <= j < i ==> !SameName(schemes[j].name, name)
  }

  /** `password_scheme_lookup_name` */
  method LookupName(schemes: seq<Scheme>, name: string) returns (r: Option<Scheme>)
    ensures r.Some? ==> exists i: nat :: FirstNamed(schemes, name, i) && schemes[i] == r.value
    ensures r.None? ==> forall s :: s in schemes ==> !SameName(s.name, name)
  {
    var i := 0;
    while i < |schemes|
      invariant 0 <= i <= |schemes| && forall j :: 0 <= j < i ==> !SameName(schemes[j].name, name)
    {
      if SameName(schemes[i].name, name) {
        assert FirstNamed(schemes, name, i);
        return Some(schemes[i]);
      }
      i := i + 1;
    }
    return None;
  }

  /** A name is split at its first dot. */
  function Dot(name: string): (n: nat)
    ensures n <= |name| && (n < |name| ==> name[n] == '.') && forall i :: 0 <= i < n ==> name[i] != '.'
  {
    if name == [] || name[0] == '.' then 0 else 1 + Dot(name[1..])
  }

  function Suffix(encoding: string): Option<PwEncoding> {
    if SameName(encoding, "b64") || SameName(encoding, "base64") then Some(Base64)
    else if SameName(encoding, "hex") then Some(Hex)
    else None
  }

  /** What `name` stands for: a scheme and an encoding, or nothing. */
  ghost predicate Means(schemes: seq<Scheme>, name: string, s: Scheme, encoding: PwEncoding) {
    var n := Dot(name);
    && (exists i: nat :: FirstNamed(schemes, name[..n], i) && schemes[i] == s)
    && (if n == |name| then encoding == s.defaultEncoding else Suffix(name[n + 1..]) == Some(encoding))
  }

  /** `password_scheme_lookup` */
  method Lookup(schemes: seq<Scheme>, name: string) returns (r: Option<(Scheme, PwEncoding)>)
    ensures r.Some? ==> Means(schemes, name, r.value.0, r.value.1)
    ensures r.None? ==> forall s, e :: !Means(schemes, name, s, e)
  {
    var n := 0;
    while n < |name|
      invariant 0 <= n <= |name| && '.' !in name[..n]
    {
      if name[n] == '.' {
        break;
      }
      n := n + 1;
    }
    DotAt(name, n);
    var s := LookupName(schemes, name[..n]);
    if s.None? {
      return None;
    }
    if n == |name| {
      return Some((s.value, s.value.defaultEncoding));
    }
    var encoding := Suffix(name[n + 1..]);
    if encoding.None? {
      return None;
    }
    return Some((s.value, encoding.value));
  }

  lemma DotAt(name: string, n: nat)
    requires n <= |name| && '.' !in name[..n] && (n < |name| ==> name[n] == '.')
    ensures Dot(name) == n
  {
    assert forall i :: 0 <= i < n ==> name[..n][i] == name[i];
  }

  /** A name means at most one thing. */
  lemma MeansOne(schemes: seq<Scheme>, name: string, s1: Scheme, e1: PwEncoding, s2: Scheme, e2: PwEncoding)
    requires Means(schemes, name, s1, e1) && Means(schemes, name, s2, e2)
    ensures s1 == s2 && e1 == e2
  {
    var i: nat :| FirstNamed(schemes, name[..Dot(name)], i) && schemes[i] == s1;
    var j: nat :| FirstNamed(schemes, name[..Dot(name)], j) && schemes[j] == s2;
    assert i == j;
  }

  /** A name without a dot means its scheme's own encoding; `.hex`, `.b64` and `.base64` name one, in any case. */
  lemma SuffixMeans(schemes: seq<Scheme>, base: string, suffix: string, s: Scheme, e: PwEncoding)
    requires '.' !in base
    ensures Means(schemes, base, s, e) ==> e == s.defaultEncoding
    ensures Means(schemes, base + "." + suffix, s, e) ==>
              (e == Hex <==> SameName(suffix, "hex"))
              && (e == Base64 <==> SameName(suffix, "b64") || SameName(suffix, "base64"))
              && e != Plain
    ensures Means(schemes, base, s, s.defaultEncoding) ==>
              && (SameName(suffix, "hex") ==> Means(schemes, base + "." + suffix, s, Hex))
              && (SameName(suffix, "b64") || SameName(suffix, "base64") ==>
                    Means(schemes, base + "." + suffix, s, Base64))
  {
    DotAt(base, |base|);
    var name := base + "." + suffix;
    assert name[..|base|] == base && name[|base|] == '.' && name[|base| + 1..] == suffix;
    DotAt(name, |base|);
    assert "b64"[0] == 'b' && "hex"[0] == 'h';
  }

  /** Two names are the same exactly if they differ at most in the case of the letters A to Z. */
  lemma NamesInAnyCase(a: string, b: string)
    ensures SameName(a, b) <==>
            && |a| == |b|
            && forall i :: 0 <= i < |a| ==>
                 || a[i] == b[i]
                 || ('A' <= a[i] <= 'Z' && b[i] as int == a[i] as int + 32)
                 || ('A' <= b[i] <= 'Z' && a[i] as int == b[i] as int + 32)
  {
    if |a| == |b| {
      forall i | 0 <= i < |a|
        ensures Lower(a[i]) == Lower(b[i]) <==>
                || a[i] == b[i]
                || ('A' <= a[i] <= 'Z' && b[i] as int == a[i] as int + 32)
                || ('A' <= b[i] <= 'Z' && a[i] as int == b[i] as int + 32)
      {
        LowerMeans(a[i]);
        LowerMeans(b[i]);
      }
    }
  }

  lemma LowerMeans(c: char)
    ensures 'A' <= c <= 'Z' ==> Lower(c) as int == c as int + 32
    ensures !('A' <= c <= 'Z') ==> Lower(c) == c
  {
  }

  // ---------------------------------------------------------------- decoding

  datatype Error = UnknownScheme | NotHex | NotBase64 | WrongLength

  /** Decoding once the encoding is settled; `guessed` hexadecimal may turn out to be base64. */
  function DecodeAs(password: seq<Byte>, encoding: PwEncoding, guessed: bool): Result<seq<Byte>, Error> {
    match encoding
    case Plain => Ok(password)
    case Hex =>
      if FromHex(password).ret == 0 then Ok(FromHex(password).bytes)
      else if guessed then FromBase64(password)
      else Err(NotHex)
    case Base64 => FromBase64(password)
  }

  function FromBase64(password: seq<Byte>): Result<seq<Byte>, Error> {
    if Decode64(password).ret < 0 then Err(NotBase64) else Ok(Decode64(password).bytes)
  }

  /** The whole of `password_decode` for a name that means `s` and `encoding`. */
  function DecodeWith(password: seq<Byte>, s: Scheme, encoding: PwEncoding, suffixed: bool): Result<seq<Byte>, Error> {
    var guess := encoding != Plain && s.rawLen != 0 && !suffixed;
    var r := DecodeAs(password, if !guess then encoding else if |password| == s.rawLen * 2 then Hex else Base64, guess);
    if r.Ok? && s.rawLen != |r.value| && s.rawLen != 0 then Err(WrongLength) else r
  }

  /** `password_decode` */
  method Decode(schemes: seq<Scheme>, password: seq<Byte>, name: string) returns (r: Result<seq<Byte>, Error>)
    ensures (forall s, e :: !Means(schemes, name, s, e)) ==> r == Err(UnknownScheme)
    ensures forall s, e :: Means(schemes, name, s, e) ==> r == DecodeWith(password, s, e, '.' in name)
  {
    var found := Lookup(schemes, name);
    if found.None? {
      return Err(UnknownScheme);
    }
    var (s, encoding) := found.value;
    forall s', e' | Means(schemes, name, s', e')
      ensures s' == s && e' == encoding
    {
      MeansOne(schemes, name, s, encoding, s', e');
    }
    hide Means;
    var guessed := false;
    if encoding != Plain && s.rawLen != 0 && '.' !in name {
      encoding := if |password| == s.rawLen * 2 then Hex else Base64;
      guessed := true;
    }
    var raw := password;
    if encoding == Hex {
      var ret, bytes := HexToBinary(password);
      if ret == 0 {
        raw := bytes;
      } else if !guessed {
        return Err(NotHex);
      } else {
        encoding := Base64;
      }
    }
    if encoding == Base64 {
      var ret, bytes := Base64Decode(password);
      if ret < 0 {
        return Err(NotBase64);
      }
      raw := bytes;
    }
    if s.rawLen != |raw| && s.rawLen != 0 {
      return Err(WrongLength);
    }
    return Ok(raw);
  }

  /** Both forms of a fixed-length password are recovered without naming the encoding. */
  lemma GuessedHex(s: Scheme, encoding: PwEncoding, raw: seq<Byte>, upper: bool)
    requires encoding != Plain && s.rawLen == |raw| > 0
    ensures DecodeWith(ToHex(raw, upper), s, encoding, false) == Ok(raw)
  {
    HexRoundTrip(raw, upper);
  }

  /** Two and four bytes have equally long forms, but then the padding shows that it is base64. */
  lemma GuessedBase64(s: Scheme, encoding: PwEncoding, raw: seq<Byte>)
    requires encoding != Plain && s.rawLen == |raw| > 0
    ensures DecodeWith(Encode64(raw), s, encoding, false) == Ok(raw)
    ensures |Encode64(raw)| == 2 * |raw| ==> |raw| == 2 || |raw| == 4
  {
    Base64RoundTrip(raw);
    Base64Shape(raw);
    if |Encode64(raw)| == 2 * |raw| {
      SpoiltHex(Encode64(raw), |Encode64(raw)| - 1);
    }
  }

  // ---------------------------------------------------------------- generating

  function EncodeWith(raw: seq<Byte>, encoding: PwEncoding): seq<Byte> {
    match encoding
    case Plain => UpToNul(raw)
    case Base64 => Encode64(raw)
    case Hex => ToHex(raw, false)
  }

  /** `password_generate_encoded` */
  method GenerateEncoded(schemes: seq<Scheme>, plaintext: seq<Byte>, user: seq<Byte>, name: string)
    returns (r: Option<seq<Byte>>)
    ensures (forall s, e :: !Means(schemes, name, s, e)) ==> r == None
    ensures forall s, e :: Means(schemes, name, s, e) ==> r == Some(EncodeWith(s.generate(plaintext, user), e))
    ensures forall s, e :: Means(schemes, name, s, e) ==>
              && (e == Hex ==> r == Some(ToHex(s.generate(plaintext, user), false)))
              && (e == Base64 ==> r == Some(Encode64(s.generate(plaintext, user))))
              && (e == Plain && 0 !in s.generate(plaintext, user) ==> r == Some(s.generate(plaintext, user)))
  {
    var found := Lookup(schemes, name);
    if found.None? {
      return None;
    }
    var (s, encoding) := found.value;
    forall s', e' | Means(schemes, name, s', e')
      ensures s' == s && e' == encoding
    {
      MeansOne(schemes, name, s, encoding, s', e');
    }
    hide Means;
    var raw := s.generate(plaintext, user);
    match encoding {
      case Plain =>
        r := Some(UpToNul(raw));
      case Base64 =>
        var text := Base64Encode(raw);
        r := Some(text);
      case Hex =>
        var text := BinaryToHex(raw, false);
        r := Some(text);
    }
  }

  /** Storing a generated password loses nothing: it has the scheme's length and, unencoded, holds no NUL. */
  predicate Kept(s: Scheme, encoding: PwEncoding, raw: seq<Byte>) {
    (s.rawLen == 0 || |raw| == s.rawLen) && (encoding == Plain ==> 0 !in raw)
  }

  /** Decoding gives the raw password back exactly when it is kept. */
  lemma EncodedBack(s: Scheme, encoding: PwEncoding, suffixed: bool, raw: seq<Byte>)
    ensures DecodeWith(EncodeWith(raw, encoding), s, encoding, suffixed) == Ok(raw)
            <==> Kept(s, encoding, raw)
  {
    if s.rawLen == 0 || |raw| == s.rawLen {
      if encoding == Base64 {
        Base64RoundTrip(raw);
        if !suffixed && |raw| == s.rawLen > 0 {
          GuessedBase64(s, encoding, raw);
        }
      } else if encoding == Hex {
        HexRoundTrip(raw, false);
      }
    }
  }

  // ---------------------------------------------------------------- verifying

  ghost function VerifyWith(plaintext: seq<Byte>, user: seq<Byte>, s: Scheme, raw: seq<Byte>): int {
    if s.verify.Some? then s.verify.value(plaintext, user, raw)
    else if s.generate(plaintext, user) == raw then 1 else 0
  }

  /** `password_verify` */
  method Verify(schemes: seq<Scheme>, plaintext: seq<Byte>, user: seq<Byte>, name: string, raw: seq<Byte>)
    returns (ret: int)
    ensures (forall s, e :: !Means(schemes, name, s, e)) ==> ret == -1
    ensures forall s, e :: Means(schemes, name, s, e) ==> ret == VerifyWith(plaintext, user, s, raw)
  {
    var found := Lookup(schemes, name);
    if found.None? {
      return -1;
    }
    var (s, encoding) := found.value;
    forall s', e' | Means(schemes, name, s', e')
      ensures s' == s && e' == encoding
    {
      MeansOne(schemes, name, s, encoding, s', e');
    }
    hide Means;
    if s.verify.Some? {
      return s.verify.value(plaintext, user, raw);
    }
    return if s.generate(plaintext, user) == raw then 1 else 0;
  }

  /**
   A generated password is stored, read back and tried; nothing comes of an unknown scheme or an unreadable text. A
   password that was kept is judged as generated, and without a judgement of the scheme's own that admits those
   that generate the same.
   */
  method StoreAndVerify(schemes: seq<Scheme>, stored: seq<Byte>, tried: seq<Byte>, user: seq<Byte>, name: string)
    returns (ret: Option<int>)
    ensures (forall s, e :: !Means(schemes, name, s, e)) ==> ret == None
    ensures forall s, e :: Means(schemes, name, s, e) && Kept(s, e, s.generate(stored, user)) ==>
              && ret == Some(VerifyWith(tried, user, s, s.generate(stored, user)))
              && (s.verify.None? ==> (ret == Some(1) <==> s.generate(tried, user) == s.generate(stored, user)))
    ensures forall s, e :: Means(schemes, name, s, e) ==>
              var r := DecodeWith(EncodeWith(s.generate(stored, user), e), s, e, '.' in name);
              ret == if r.Ok? then Some(VerifyWith(tried, user, s, r.value)) else None
  {
    hide Means, EncodeWith, DecodeWith;
    var text := GenerateEncoded(schemes, stored, user, name);
    if text.None? {
      return None;
    }
    var raw := Decode(schemes, text.value, name);
    if raw.Err? {
      forall s, e | Means(schemes, name, s, e)
        ensures !Kept(s, e, s.generate(stored, user))
      {
        EncodedBack(s, e, '.' in name, s.generate(stored, user));
      }
      return None;
    }
    var judged := Verify(schemes, tried, user, name, raw.value);
    forall s, e | Means(schemes, name, s, e)
      ensures Kept(s, e, s.generate(stored, user)) <==> raw.value == s.generate(stored, user)
    {
      EncodedBack(s, e, '.' in name, s.generate(stored, user));
    }
    ret := Some(judged);
  }

  // ---------------------------------------------------------------- the scheme prefix

  /** The position of the first `c`, or the length. */
  function Find(s: seq<Byte>, c: Byte): (n: nat)
    ensures n <= |s| && (n < |s| ==> s[n] == c) && forall i :: 0 <= i < n ==> s[i] != c
  {
    if s == [] || s[0] == c then 0 else 1 + Find(s[1..], c)
  }

  const DOLLAR: Byte := 36
  const OPEN: Byte := 123
  const CLOSE: Byte := 125
  const MD5_PREFIX: seq<Byte> := [DOLLAR, 49, DOLLAR]
  const MD5_CRYPT: seq<Byte> := [77, 68, 53, 45, 67, 82, 89, 80, 84]

  /** `password_get_scheme`: the scheme in front of a password, and the password without it. */
  function GetScheme(password: seq<Byte>): (Option<seq<Byte>>, seq<Byte>) {
    var n := if MD5_PREFIX <= password then 3 + Find(password[3..], DOLLAR) else |password|;
    if n < |password| then (Some(MD5_CRYPT), password[..n + 1 + Find(password[n + 1..], DOLLAR)])
    else if password == [] || password[0] != OPEN || CLOSE !in password then (None, password)
    else var p := Find(password, CLOSE); (Some(password[1..p]), password[p + 1..])
  }

  lemma Md5Cut(password: seq<Byte>, n: nat)
    requires MD5_PREFIX <= password && n == 3 + Find(password[3..], DOLLAR) < |password|
    ensures GetScheme(password) == (Some(MD5_CRYPT), password[..n + 1 + Find(password[n + 1..], DOLLAR)])
  {
    hide Find;
  }

  lemma Md5At(password: seq<Byte>, salt: seq<Byte>, tail: seq<Byte>)
    requires password == MD5_PREFIX + salt + [DOLLAR] + tail && DOLLAR !in salt
    ensures GetScheme(password) == (Some(MD5_CRYPT), MD5_PREFIX + salt + [DOLLAR] + tail[..Find(tail, DOLLAR)])
  {
    Divided(MD5_PREFIX, salt, [DOLLAR], tail, Find(tail, DOLLAR));
    FindAt(password[3..], salt, tail);
    hide Find, GetScheme;
    Md5Cut(password, 3 + |salt|);
  }

  lemma Divided(a: seq<Byte>, b: seq<Byte>, c: seq<Byte>, d: seq<Byte>, n: nat)
    requires n <= |d|
    ensures var all, m := a + b + c + d, |a| + |b| + |c|;
            a <= all && all[|a|..] == b + c + d && all[m..] == d && all[..m + n] == a + b + c + d[..n]
  {
  }

  /** A password `$1$salt$hash` has the scheme MD5-CRYPT, and what follows another dollar sign is cut off. */
  lemma Md5Scheme(salt: seq<Byte>, hash: seq<Byte>, rest: seq<Byte>)
    requires '$' as int !in salt && '$' as int !in hash
    ensures var password := Ascii("$1$") + salt + Ascii("$") + hash;
            && GetScheme(password) == (Some(Ascii("MD5-CRYPT")), password)
            && GetScheme(password + Ascii("$") + rest) == (Some(Ascii("MD5-CRYPT")), password)
  {
    assert Ascii("$1$") == MD5_PREFIX && Ascii("$") == [DOLLAR] && Ascii("MD5-CRYPT") == MD5_CRYPT;
    var password, tail := Ascii("$1$") + salt + Ascii("$") + hash, hash + [DOLLAR] + rest;
    hide GetScheme, Find, Ascii;
    FindAt(tail, hash, rest);
    assert tail[..|hash|] == hash && hash[..|hash|] == hash;
    assert password + [DOLLAR] + rest == MD5_PREFIX + salt + [DOLLAR] + tail;
    Md5At(password, salt, hash);
    Md5At(password + [DOLLAR] + rest, salt, tail);
  }

  lemma FindAt(s: seq<Byte>, a: seq<Byte>, b: seq<Byte>)
    requires DOLLAR !in a
    ensures s == a + [DOLLAR] + b ==> Find(s, DOLLAR) == |a|
    ensures Find(a, DOLLAR) == |a|
  {
    if s == a + [DOLLAR] + b {
      assert s[|a|] == DOLLAR && forall i :: 0 <= i < |a| ==> s[i] == a[i];
    }
  }

  /** Putting a scheme in front is undone by taking it off, exactly when its name has no closing brace. */
  lemma SchemeRoundTrip(scheme: seq<Byte>, password: seq<Byte>)
    ensures GetScheme([OPEN] + scheme + [CLOSE] + password) == (Some(scheme), password) <==> CLOSE !in scheme
    ensures [OPEN] == Ascii("{") && [CLOSE] == Ascii("}")
  {
    var all := [OPEN] + scheme + [CLOSE] + password;
    assert all[0] == OPEN && all[1 + |scheme|] == CLOSE;
    var p := Find(all, CLOSE);
    assert forall i :: 0 <= i < |scheme| ==> all[i + 1] == scheme[i];
    if CLOSE !in scheme {
      assert p == 1 + |scheme|;
      assert all[1..p] == scheme && all[p + 1..] == password;
    } else {
      var i :| 0 <= i < |scheme| && scheme[i] == CLOSE;
      assert all[i + 1] == CLOSE && p <= i + 1;
      assert |all[1..p]| < |scheme|;
    }
  }
}

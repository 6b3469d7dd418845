/**
 The server side of SCRAM-SHA-1 (mech-scram-sha1.c) and a client as section 3 of RFC 5802 describes it.
 */
module ScramMech {
  import opened Encoding
  import opened TextFields
  import opened Wrappers
  import opened ScramPassword

  const A: Byte := 97
  const C: Byte := 99
  const I: Byte := 105
  const M: Byte := 109
  const N: Byte := 110
  const P: Byte := 112
  const R: Byte := 114
  const S: Byte := 115
  const V: Byte := 118
  const Y: Byte := 121
  const TILDE: Byte := 126
  const SERVER_NONCE_LEN := 64

  function Attr(name: Byte, value: Bytes): Bytes {
    [name, EQUALS] + value
  }

  ghost predicate Plain(text: Bytes) {
    COMMA !in text && 0 !in text
  }

  // ---------------------------------------------------------------- names

  const ESCAPED_COMMA: Bytes := [EQUALS, 50, 67]
  const ESCAPED_EQUALS: Bytes := [EQUALS, 51, 68]

  function Escape(name: Bytes): Bytes {
    if name == [] then []
    else
      var first := if name[0] == COMMA then ESCAPED_COMMA else if name[0] == EQUALS then ESCAPED_EQUALS else [name[0]];
      first + Escape(name[1..])
  }

  function Unescape(text: Bytes): Option<Bytes> {
    if text == [] then Some([])
    else if text[0] != EQUALS then Then([text[0]], Unescape(text[1..]))
    else if |text| >= 3 && text[1] == 50 && text[2] == 67 then Then([COMMA], Unescape(text[3..]))
    else if |text| >= 3 && text[1] == 51 && text[2] == 68 then Then([EQUALS], Unescape(text[3..]))
    else None
  }

  function Then(first: Bytes, rest: Option<Bytes>): Option<Bytes> {
    if rest.Some? then Some(first + rest.value) else None
  }

  lemma ThenChains(a: Bytes, b: Bytes, r: Option<Bytes>)
    ensures Then(a, Then(b, r)) == Then(a + b, r) && Then([], r) == r && (r == Some([]) ==> Then(a, r) == Some(a))
  {
    if r.Some? {
      assert a + (b + r.value) == a + b + r.value && [] + r.value == r.value && a + [] == a;
    }
  }

  /** The loop of `scram_unescape_username`. */
  method UnescapeUsername(text: Bytes) returns (out: Option<Bytes>)
    requires COMMA !in text
    ensures out == Unescape(text)
  {
    var name, i := [], 0;
    assert text[0..] == text;
    ThenChains([], [], Unescape(text));
    while i < |text|
      invariant 0 <= i <= |text| && Unescape(text) == Then(name, Unescape(text[i..]))
    {
      hide Then;
      assert text[i] != COMMA;
      ghost var escaped := if i + 3 <= |text| && text[i + 1] == 50 then COMMA else EQUALS;
      ThenChains(name, [if text[i] != EQUALS then text[i] else escaped],
                 Unescape(text[i + if text[i] == EQUALS && i + 3 <= |text| then 3 else 1..]));
      assert text[i..][1..] == text[i + 1..] && (i + 3 <= |text| ==> text[i..][3..] == text[i + 3..]);
      if text[i] == EQUALS {
        if i + 3 <= |text| && text[i + 1] == 50 && text[i + 2] == 67 {
          name := name + [COMMA];
        } else if i + 3 <= |text| && text[i + 1] == 51 && text[i + 2] == 68 {
          name := name + [EQUALS];
        } else {
          return None;
        }
        i := i + 3;
      } else {
        name := name + [text[i]];
        i := i + 1;
      }
    }
    ThenChains(name, [], Some([]));
    return Some(name);
  }

  lemma {:induction false} UnescapeEscaped(name: Bytes)
    ensures Unescape(Escape(name)) == Some(name) && COMMA !in Escape(name)
    ensures 0 !in name ==> 0 !in Escape(name)
  {
    if name != [] {
      UnescapeEscaped(name[1..]);
      var text, rest := Escape(name), Escape(name[1..]);
      assert name == [name[0]] + name[1..];
      if name[0] == COMMA {
        assert text[..3] == ESCAPED_COMMA && text[3..] == rest;
      } else if name[0] == EQUALS {
        assert text[..3] == ESCAPED_EQUALS && text[3..] == rest;
      } else {
        assert text[0] == name[0] && text[1..] == rest;
      }
      assert Unescape(text) == Then([name[0]], Unescape(rest));
    }
  }

  /** Unescaping is the exact inverse: a name has one escaped form. */
  lemma {:induction false} EscapeUnescaped(text: Bytes)
    requires COMMA !in text && Unescape(text).Some?
    ensures Escape(Unescape(text).value) == text
  {
    if text != [] {
      var n := if text[0] == EQUALS then 3 else 1;
      EscapeUnescaped(text[n..]);
      var name := Unescape(text).value;
      assert name[1..] == Unescape(text[n..]).value;
      assert text == text[..n] + text[n..];
    }
  }

  // ---------------------------------------------------------------- what the server reads and sends

  datatype Error = BadInitial | BindingUnsupported | BadGs2Header | BadAuthzid | MandatoryExtension | BadUsername
                 | NameRefused | BadClientNonce | BadFinal | BadBinding | BadNonce | BadProof

  /** The client's first message, as understood. */
  datatype First = First(flag: Bytes, login: Option<Bytes>, user: Bytes, cnonce: Bytes, bare: Bytes)

  predicate Is(field: Bytes, name: Byte) {
    |field| >= 2 && field[0] == name && field[1] == EQUALS
  }

  /** `parse_scram_client_first`; `allowed` says which names may log in. */
  function ReadFirst(data: Bytes, allowed: Bytes -> bool): Result<First, Error> {
    var fields := Split(UpToNul(data));
    if |fields| < 4 then Err(BadInitial)
    else
      var flag, authzid, username, nonce := fields[0], fields[1], fields[2], fields[3];
      if flag != [] && flag[0] == P then Err(BindingUnsupported)
      else if flag == [] || (flag[0] != Y && flag[0] != N) then Err(BadGs2Header)
      else if authzid != [] && (!Is(authzid, A) || Unescape(authzid[2..]).None?) then Err(BadAuthzid)
      else if username != [] && username[0] == M then Err(MandatoryExtension)
      else if !Is(username, N) || Unescape(username[2..]).None? then Err(BadUsername)
      else
        var user := Unescape(username[2..]).value;
        var login := if authzid == [] then None else Unescape(authzid[2..]);
        if !allowed(user) || (login.Some? && !allowed(login.value)) then Err(NameRefused)
        else if !Is(nonce, R) then Err(BadClientNonce)
        else
          assert |data| >= 3 by { AtLeastThree(UpToNul(data)); }
          Ok(First(flag, login, user, nonce[2..], UpToNul(data[3..])))
  }

  lemma FieldsArePlain(s: Bytes)
    ensures forall f :: f in Split(s) ==> COMMA !in f
  {
  }

  lemma AtLeastThree(s: Bytes)
    requires |Split(s)| >= 4
    ensures |s| >= 3
  {
    PiecesLength(s);
  }

  lemma {:induction false} PiecesLength(s: Bytes)
    ensures |Pieces(s)| <= |s| + 1
  {
    var n := Comma(s);
    if n < |s| {
      PiecesLength(s[n + 1..]);
    }
  }

  /** The nonce characters: printable and no comma. */
  function NonceByte(b: Byte): (r: Byte)
    ensures 33 <= r <= 126 && r != COMMA
  {
    if b % 93 + 33 == COMMA then TILDE else b % 93 + 33
  }

  function Snonce(random: Bytes): (r: Bytes)
    ensures |r| == |random| && forall i :: 0 <= i < |r| ==> r[i] == NonceByte(random[i])
  {
    seq(|random|, i requires 0 <= i < |random| => NonceByte(random[i]))
  }

  /** `get_scram_server_first` */
  function ServerFirst(cnonce: Bytes, snonce: Bytes, salt: Bytes, iterations: nat): Bytes {
    Join([Attr(R, cnonce + snonce), Attr(S, salt), Attr(I, ToDecimal(iterations))])
  }

  /** The client's last message: all but the proof, and the proof. */
  datatype Final = Final(withoutProof: Bytes, proof: Bytes)

  /** `parse_scram_client_final` */
  function ReadFinal(data: Bytes, flag: Bytes, nonce: Bytes): (r: Result<Final, Error>)
    ensures r.Ok? ==> |r.value.proof| == RESULTLEN
  {
    var fields := Split(UpToNul(data));
    if |fields| < 3 then Err(BadFinal)
    else if fields[0] != Attr(C, Encode64(flag + [COMMA, COMMA])) then Err(BadBinding)
    else if fields[1] != Attr(R, nonce) then Err(BadNonce)
    else
      var last := fields[|fields| - 1];
      if |last| < 2 || last[0] != P || Key(last[2..]).None? then Err(BadProof)
      else Ok(Final(Join(Without(fields, last)), Key(last[2..]).value))
  }

  function AuthMessage(bare: Bytes, serverFirst: Bytes, withoutProof: Bytes): Bytes {
    bare + [COMMA] + serverFirst + [COMMA] + withoutProof
  }

  lemma AuthMessageMeans(bare: Bytes, serverFirst: Bytes, withoutProof: Bytes)
    ensures AuthMessage(bare, serverFirst, withoutProof) == bare + Ascii(",") + serverFirst + Ascii(",") + withoutProof
    ensures forall value :: Attr(V, value) == Ascii("v=") + value
  {
    assert Ascii(",") == [COMMA] && Ascii("v=") == [V, EQUALS];
  }

  ghost predicate ProofMatches(c: Crypto, storedKey: Bytes, message: Bytes, proof: Bytes)
    requires c.Valid() && |proof| == RESULTLEN
  {
    c.h(XorAll(proof, c.hmac(storedKey, message))) == storedKey
  }

  // ---------------------------------------------------------------- a client

  /** `flag` is `n` or `y`; there is no channel binding. */
  datatype Client = Client(flag: Byte, authzid: Option<Bytes>, user: Bytes, password: Bytes, cnonce: Bytes,
                           firstExtensions: seq<Bytes>, finalExtensions: seq<Bytes>)
  {
    ghost predicate Valid() {
      && (flag == N || flag == Y)
      && (authzid.Some? ==> authzid.value != [] && 0 !in authzid.value)
      && 0 !in user && Plain(cnonce)
      && (forall e :: e in firstExtensions ==> Plain(e))
      && (forall e :: e in finalExtensions ==> Plain(e) && e != [] && e[0] != P)
    }

    function Gs2Header(): Bytes {
      [flag, COMMA] + (if authzid.None? then [] else Attr(A, Escape(authzid.value))) + [COMMA]
    }

    function Bare(): Bytes {
      Join([Attr(N, Escape(user)), Attr(R, cnonce)] + firstExtensions)
    }

    function FirstMessage(): Bytes {
      Gs2Header() + Bare()
    }

    function WithoutProof(nonce: Bytes): Bytes {
      Join([Attr(C, Encode64(Gs2Header())), Attr(R, nonce)] + finalExtensions)
    }

    /** The client takes nonce, salt and iteration count from the server's message. */
    function FinalMessage(c: Crypto, serverFirst: Bytes): Bytes
      requires c.Valid()
    {
      var fields := Split(serverFirst);
      if |fields| < 3 || |fields[0]| < 2 || |fields[1]| < 2 || |fields[2]| < 2 then []
      else
        var nonce, salt, iterations := fields[0][2..], Decode64(fields[1][2..]).bytes, ToUint(fields[2][2..]);
        if iterations.None? || iterations.value == 0 then []
        else FinalWith(c, nonce, salt, iterations.value, serverFirst)
    }

    function FinalWith(c: Crypto, nonce: Bytes, salt: Bytes, iterations: nat, serverFirst: Bytes): Bytes
      requires c.Valid() && iterations > 0
    {
      Join([Attr(C, Encode64(Gs2Header())), Attr(R, nonce)] + finalExtensions
           + [Attr(P, Encode64(Proof(c, nonce, salt, iterations, serverFirst)))])
    }

    /** ClientKey XOR HMAC(StoredKey, AuthMessage) */
    function Proof(c: Crypto, nonce: Bytes, salt: Bytes, iterations: nat, serverFirst: Bytes): Bytes
      requires c.Valid() && iterations > 0
    {
      XorAll(ClientKey(c, password, salt, iterations),
             c.hmac(StoredKey(c, password, salt, iterations), AuthMessage(Bare(), serverFirst, WithoutProof(nonce))))
    }
  }

  /** The messages of section 5 of RFC 5802, for a client without extensions or authorization identity. */
  lemma MessagesMean(client: Client, nonce: Bytes, snonce: Bytes, salt: Bytes, iterations: nat)
    requires client.flag == N && client.authzid.None? && client.firstExtensions == client.finalExtensions == []
    ensures client.FirstMessage() == Ascii("n,,n=") + Escape(client.user) + Ascii(",r=") + client.cnonce
    ensures ServerFirst(client.cnonce, snonce, salt, iterations)
            == Ascii("r=") + client.cnonce + snonce + Ascii(",s=") + salt + Ascii(",i=") + ToDecimal(iterations)
    ensures client.WithoutProof(nonce) == Ascii("c=") + Encode64(Ascii("n,,")) + Ascii(",r=") + nonce
  {
    hide Escape, Encode64, ToDecimal, Join;
    assert Ascii("n,,n=") == [N, COMMA] + [COMMA] + [N, EQUALS] && Ascii("n,,") == [N, COMMA] + [] + [COMMA];
    assert Ascii("r=") == [R, EQUALS] && Ascii(",r=") == [COMMA, R, EQUALS] && Ascii(",s=") == [COMMA, S, EQUALS];
    assert Ascii(",i=") == [COMMA, I, EQUALS] && Ascii("c=") == [C, EQUALS];
    JoinPair(Attr(N, Escape(client.user)), Attr(R, client.cnonce));
    JoinPair(Attr(C, Encode64(client.Gs2Header())), Attr(R, nonce));
    JoinTwo(Attr(R, client.cnonce + snonce), Attr(S, salt), [Attr(I, ToDecimal(iterations))]);
    JoinOne(Attr(I, ToDecimal(iterations)));
    var fields := [Attr(R, client.cnonce + snonce), Attr(S, salt), Attr(I, ToDecimal(iterations))];
    assert fields == [fields[0], fields[1]] + [fields[2]];
    assert [R, EQUALS] + (client.cnonce + snonce) == Ascii("r=") + client.cnonce + snonce;
  }

  lemma JoinOne(a: Bytes)
    ensures Join([a]) == a
  {
  }

  lemma JoinPair(a: Bytes, b: Bytes)
    ensures Join([a, b] + []) == Join([a, b]) == a + [COMMA] + b
  {
    assert [a, b] + [] == [a, b] && [a, b][1..] == [b];
  }

  /** A comma is written as `=2C` and an equals sign as `=3D`; any other byte stays as it is. */
  lemma EscapeMeans(name: Bytes)
    requires name != []
    ensures name[0] == ',' as int ==> Escape(name) == Ascii("=2C") + Escape(name[1..])
    ensures name[0] == '=' as int ==> Escape(name) == Ascii("=3D") + Escape(name[1..])
    ensures name[0] != ',' as int && name[0] != '=' as int ==> Escape(name) == [name[0]] + Escape(name[1..])
  {
    assert ESCAPED_COMMA == Ascii("=2C") && ESCAPED_EQUALS == Ascii("=3D");
  }

  /**
   Which last messages are read: the binding data are the client's own flag without an authorization identity, the
   nonce is the whole one, and the last field is a proof of the right length.
   */
  lemma FinalExactly(data: Bytes, flag: Bytes, nonce: Bytes)
    ensures var fields, r := Split(UpToNul(data)), ReadFinal(data, flag, nonce);
            && (r.Ok? <==>
                && |fields| >= 3 && fields[0] == Ascii("c=") + Encode64(flag + Ascii(",,"))
                && fields[1] == Ascii("r=") + nonce
                && var last := fields[|fields| - 1];
                   && |last| >= 2 && last[0] == 'p' as int
                   && Decode64(last[2..]).ret >= 0 && |Decode64(last[2..]).bytes| == 20)
            && (r.Ok? ==> r.value.proof == Decode64(fields[|fields| - 1][2..]).bytes)
            && (r.Ok? && fields[|fields| - 1] !in fields[..|fields| - 1] ==>
                  r.value.withoutProof == Join(fields[..|fields| - 1]))
  {
    hide Split, Encode64, Decode64, Join, Without;
    assert Ascii("c=") == [C, EQUALS] && Ascii("r=") == [R, EQUALS] && Ascii(",,") == [COMMA, COMMA];
    var fields := Split(UpToNul(data));
    if |fields| >= 3 && fields[|fields| - 1] !in fields[..|fields| - 1] {
      assert fields == fields[..|fields| - 1] + [fields[|fields| - 1]];
      WithoutLast(fields[..|fields| - 1], fields[|fields| - 1]);
    }
  }

  /** Which first messages are read, and as what; the names are unescaped and must be allowed to log in. */
  lemma FirstExactly(data: Bytes, allowed: Bytes -> bool)
    ensures var fields, r := Split(UpToNul(data)), ReadFirst(data, allowed);
            && (r.Ok? ==>
                  && |fields| >= 4 && fields[0] == r.value.flag && fields[0] != []
                  && (fields[0][0] == 'n' as int || fields[0][0] == 'y' as int)
                  && (if r.value.login.None? then fields[1] == []
                      else fields[1] == Ascii("a=") + Escape(r.value.login.value) && allowed(r.value.login.value))
                  && fields[2] == Ascii("n=") + Escape(r.value.user) && allowed(r.value.user)
                  && fields[3] == Ascii("r=") + r.value.cnonce
                  && |data| >= 3 && r.value.bare == UpToNul(data[3..]))
  {
    hide Split, Escape, Unescape;
    assert Ascii("a=") == [A, EQUALS] && Ascii("n=") == [N, EQUALS] && Ascii("r=") == [R, EQUALS];
    var fields, r := Split(UpToNul(data)), ReadFirst(data, allowed);
    if r.Ok? {
      AtLeastThree(UpToNul(data));
      FieldsArePlain(UpToNul(data));
      assert fields[1] in fields && fields[2] in fields;
      EscapeUnescaped(fields[2][2..]);
      if fields[1] != [] {
        EscapeUnescaped(fields[1][2..]);
      }
    }
  }

  // ---------------------------------------------------------------- the exchange

  lemma JoinTwo(a: Bytes, b: Bytes, rest: seq<Bytes>)
    requires rest != []
    ensures Join([a, b] + rest) == a + [COMMA] + b + [COMMA] + Join(rest)
  {
    assert ([a, b] + rest)[1..] == [b] + rest && ([b] + rest)[1..] == rest;
    assert Join([b] + rest) == b + [COMMA] + Join(rest);
  }

  /** The fields of a message come back from its text. */
  lemma FieldsBack(fields: seq<Bytes>)
    requires |fields| > 1 && forall f :: f in fields ==> Plain(f)
    ensures Split(UpToNul(Join(fields))) == Split(Join(fields)) == fields
  {
    NoNuls(fields);
    SplitOfJoin(fields);
  }

  lemma HeaderFields(flag: Byte, authzid: Bytes, rest: seq<Bytes>)
    requires Plain([flag]) && Plain(authzid) && rest != [] && forall f :: f in rest ==> Plain(f)
    ensures var m := [flag, COMMA] + authzid + [COMMA] + Join(rest);
            && Split(UpToNul(m)) == [[flag], authzid] + rest
            && (authzid == [] ==> m[3..] == Join(rest) && UpToNul(m[3..]) == Join(rest))
  {
    hide Split, UpToNul, Join;
    JoinTwo([flag], authzid, rest);
    var m := [flag, COMMA] + authzid + [COMMA] + Join(rest);
    assert m == Join([[flag], authzid] + rest);
    FieldsBack([[flag], authzid] + rest);
    NoNuls(rest);
    if authzid == [] {
      assert m[3..] == Join(rest);
    }
  }

  lemma PlainAttr(name: Byte, value: Bytes)
    requires Plain(value) && name != COMMA && name != 0
    ensures Plain(Attr(name, value))
  {
  }

  lemma FirstFields(client: Client)
    requires client.Valid()
    ensures Split(UpToNul(client.FirstMessage()))
            == [[client.flag], if client.authzid.None? then [] else Attr(A, Escape(client.authzid.value)),
                Attr(N, Escape(client.user)), Attr(R, client.cnonce)] + client.firstExtensions
    ensures client.authzid.None? ==>
              |client.FirstMessage()| >= 3 && UpToNul(client.FirstMessage()[3..]) == client.Bare()
  {
    hide Split, UpToNul, Join, Escape, Attr;
    var authzid := if client.authzid.None? then [] else Attr(A, Escape(client.authzid.value));
    var rest := [Attr(N, Escape(client.user)), Attr(R, client.cnonce)] + client.firstExtensions;
    UnescapeEscaped(client.user);
    PlainAttr(N, Escape(client.user));
    PlainAttr(R, client.cnonce);
    if client.authzid.Some? {
      UnescapeEscaped(client.authzid.value);
      PlainAttr(A, Escape(client.authzid.value));
    }
    HeaderFields(client.flag, authzid, rest);
    assert client.FirstMessage() == [client.flag, COMMA] + authzid + [COMMA] + Join(rest);
    assert [[client.flag], authzid] + rest
           == [[client.flag], authzid, Attr(N, Escape(client.user)), Attr(R, client.cnonce)] + client.firstExtensions;
  }

  /** The server understands the client's first message. */
  lemma FirstUnderstood(client: Client, allowed: Bytes -> bool)
    requires client.Valid() && allowed(client.user) && (client.authzid.Some? ==> allowed(client.authzid.value))
    ensures var r := ReadFirst(client.FirstMessage(), allowed);
            && r.Ok? && r.value.flag == [client.flag] && r.value.user == client.user && r.value.login == client.authzid
            && r.value.cnonce == client.cnonce
            && (client.authzid.None? ==> r.value.bare == client.Bare())
  {
    hide Split, UpToNul, Escape, Unescape, Client.FirstMessage, Client.Bare;
    FirstFields(client);
    UnescapeEscaped(client.user);
    assert Attr(N, Escape(client.user))[2..] == Escape(client.user) && Attr(R, client.cnonce)[2..] == client.cnonce;
    if client.authzid.Some? {
      UnescapeEscaped(client.authzid.value);
      assert Attr(A, Escape(client.authzid.value))[2..] == Escape(client.authzid.value);
    }
  }

  /** The client understands the server's first message. */
  lemma ServerFirstUnderstood(c: Crypto, client: Client, snonce: Bytes, salt: Bytes, iterations: nat)
    requires c.Valid() && client.Valid() && Plain(snonce) && Plain(salt) && 0 < iterations <= UINT_MAX
    ensures var serverFirst := ServerFirst(client.cnonce, snonce, salt, iterations);
            client.FinalMessage(c, serverFirst)
            == client.FinalWith(c, client.cnonce + snonce, Decode64(salt).bytes, iterations, serverFirst)
  {
    hide Split, Join, Decode64, Digits, ToDecimal, UpToNul, Client.FinalWith;
    var fields := [Attr(R, client.cnonce + snonce), Attr(S, salt), Attr(I, ToDecimal(iterations))];
    DecimalRoundTrip(iterations);
    FieldsBack(fields);
    assert fields[0][2..] == client.cnonce + snonce && fields[1][2..] == salt
           && fields[2][2..] == ToDecimal(iterations);
  }

  /** The server reads the client's last message, but one with an authzid never passes the channel binding test. */
  lemma FinalUnderstood(c: Crypto, client: Client, nonce: Bytes, salt: Bytes, iterations: nat, serverFirst: Bytes)
    requires c.Valid() && client.Valid() && Plain(nonce) && iterations > 0
    ensures var r := ReadFinal(client.FinalWith(c, nonce, salt, iterations, serverFirst), [client.flag], nonce);
            r == if client.authzid.None?
                 then Ok(Final(client.WithoutProof(nonce), client.Proof(c, nonce, salt, iterations, serverFirst)))
                 else Err(BadBinding)
  {
    hide Split, UpToNul, Join, Encode64, Decode64, Escape, Hi, Client.Proof, Without;
    var proof := client.Proof(c, nonce, salt, iterations, serverFirst);
    ProofLength(c, client, nonce, salt, iterations, serverFirst);
    var most := [Attr(C, Encode64(client.Gs2Header())), Attr(R, nonce)] + client.finalExtensions;
    var last := Attr(P, Encode64(proof));
    NoCommas(client.Gs2Header());
    NoCommas(proof);
    FieldsBack(most + [last]);
    Base64RoundTrip(proof);
    assert last[2..] == Encode64(proof);
    Base64RoundTrip(client.Gs2Header());
    Base64RoundTrip([client.flag] + [COMMA, COMMA]);
    if client.authzid.None? {
      assert client.Gs2Header() == [client.flag] + [COMMA, COMMA];
      assert last !in most;
      WithoutLast(most, last);
    } else {
      assert |client.Gs2Header()| > 3;
      assert Attr(C, Encode64(client.Gs2Header()))[2..] == Encode64(client.Gs2Header());
      assert Attr(C, Encode64([client.flag] + [COMMA, COMMA]))[2..] == Encode64([client.flag] + [COMMA, COMMA]);
    }
  }

  lemma ProofLength(c: Crypto, client: Client, nonce: Bytes, salt: Bytes, iterations: nat, serverFirst: Bytes)
    requires c.Valid() && iterations > 0
    ensures |client.Proof(c, nonce, salt, iterations, serverFirst)| == RESULTLEN
  {
  }

  /** The proof unmasks the client key. */
  lemma ProofAccepted(c: Crypto, client: Client, nonce: Bytes, salt: Bytes, iterations: nat, serverFirst: Bytes)
    requires c.Valid() && iterations > 0
    ensures var message := AuthMessage(client.Bare(), serverFirst, client.WithoutProof(nonce));
            var proof := client.Proof(c, nonce, salt, iterations, serverFirst);
            |proof| == RESULTLEN && ProofMatches(c, StoredKey(c, client.password, salt, iterations), message, proof)
  {
    hide Hi, AuthMessage, Client.Bare, Client.WithoutProof;
    var message := AuthMessage(client.Bare(), serverFirst, client.WithoutProof(nonce));
    XorTwice(ClientKey(c, client.password, salt, iterations),
             c.hmac(StoredKey(c, client.password, salt, iterations), message));
  }

  // ---------------------------------------------------------------- the server

  /** What a message leads to. */
  datatype Reply = Fail | Lookup | Success(serverFinal: Bytes)

  class Request {
    const c: Crypto
    /** Which names `auth_request_set_username` and `auth_request_set_login_username` accept. */
    const allowed: Bytes -> bool
    var first: Option<First>
    var snonce: Bytes
    var serverFirst: Bytes
    var final: Final
    var storedKey: Bytes
    var serverKey: Bytes

    constructor (c: Crypto, allowed: Bytes -> bool)
      requires c.Valid()
      ensures Valid() && first == None && this.c == c && this.allowed == allowed
    {
      this.c, this.allowed, first, snonce, serverFirst := c, allowed, None, [], [];
      final, storedKey, serverKey := Final([], seq(RESULTLEN, _ => 0)), [], [];
    }

    ghost predicate Valid()
      reads this
    {
      c.Valid() && |final.proof| == RESULTLEN
    }

    /** `get_scram_server_first`, with `random` filled by the random number generator. */
    method BuildServerFirst(random: array<Byte>, salt: Bytes, iterations: nat)
      requires Valid() && first.Some? && random.Length == SERVER_NONCE_LEN
      modifies this`snonce, this`serverFirst, random
      ensures snonce == Snonce(old(random[..]))
      ensures serverFirst == ServerFirst(first.value.cnonce, snonce, salt, iterations)
    {
      for i := 0 to SERVER_NONCE_LEN
        invariant forall j :: 0 <= j < i ==> random[j] == NonceByte(old(random[j]))
        invariant forall j :: i <= j < SERVER_NONCE_LEN ==> random[j] == old(random[j])
      {
        random[i] := random[i] % 93 + 33;
        if random[i] == COMMA {
          random[i] := TILDE;
        }
      }
      snonce := random[..];
      serverFirst := ServerFirst(first.value.cnonce, snonce, salt, iterations);
    }

    /** `credentials_callback` for a found entry: no message means failure. */
    method Credentials(entry: Bytes, random: array<Byte>) returns (sent: Option<Bytes>)
      requires Valid() && first.Some? && random.Length == SERVER_NONCE_LEN
      modifies this`snonce, this`serverFirst, this`storedKey, this`serverKey, random
      ensures Valid() && (sent.Some? <==> Parsed(entry).Ok?)
      ensures sent.Some? ==>
                && storedKey == Parsed(entry).value.storedKey && serverKey == Parsed(entry).value.serverKey
                && snonce == Snonce(old(random[..])) && sent.value == serverFirst
                && serverFirst
                   == ServerFirst(first.value.cnonce, snonce, Parsed(entry).value.salt, Parsed(entry).value.iterations)
    {
      var parsed := SchemeParse(entry);
      if parsed.Err? {
        return None;
      }
      storedKey, serverKey := parsed.value.storedKey, parsed.value.serverKey;
      BuildServerFirst(random, parsed.value.salt, parsed.value.iterations);
      return Some(serverFirst);
    }

    /** The text both sides sign. */
    function Message(): Bytes
      requires first.Some?
      reads this
    {
      AuthMessage(first.value.bare, serverFirst, final.withoutProof)
    }

    /** `verify_credentials` */
    method VerifyCredentials() returns (matches: bool)
      requires Valid() && first.Some?
      ensures matches <==> ProofMatches(c, storedKey, Message(), final.proof)
    {
      var signature := c.hmac(storedKey, Message());
      var clientKey := new Byte[RESULTLEN](_ => 0);
      for i := 0 to RESULTLEN
        invariant forall j :: 0 <= j < i ==> clientKey[j] == Xor(final.proof[j], signature[j])
      {
        clientKey[i] := Xor(final.proof[i], signature[i]);
      }
      assert clientKey[..] == XorAll(final.proof, signature);
      return c.h(clientKey[..]) == storedKey;
    }

    /** `parse_scram_client_first` */
    method ParseClientFirst(data: Bytes) returns (r: Result<First, Error>)
      ensures r == ReadFirst(data, allowed)
    {
      hide Unescape, Split, UpToNul;
      var fields := Split(UpToNul(data));
      if |fields| < 4 {
        return Err(BadInitial);
      }
      FieldsArePlain(UpToNul(data));
      var flag, authzid, username, nonce := fields[0], fields[1], fields[2], fields[3];
      assert authzid in fields && username in fields;
      if flag != [] && flag[0] == P {
        return Err(BindingUnsupported);
      } else if flag == [] || (flag[0] != Y && flag[0] != N) {
        return Err(BadGs2Header);
      }
      var login: Option<Bytes> := None;
      if authzid != [] {
        if !Is(authzid, A) {
          return Err(BadAuthzid);
        }
        login := UnescapeUsername(authzid[2..]);
        if login.None? {
          return Err(BadAuthzid);
        }
      }
      if username != [] && username[0] == M {
        return Err(MandatoryExtension);
      } else if !Is(username, N) {
        return Err(BadUsername);
      }
      var user := UnescapeUsername(username[2..]);
      if user.None? {
        return Err(BadUsername);
      } else if !allowed(user.value) || (login.Some? && !allowed(login.value)) {
        return Err(NameRefused);
      } else if !Is(nonce, R) {
        return Err(BadClientNonce);
      }
      AtLeastThree(UpToNul(data));
      return Ok(First(flag, login, user.value, nonce[2..], UpToNul(data[3..])));
    }

    /** `mech_scram_sha1_auth_continue`: the first message leads to a lookup, the next one to the verdict. */
    method Continue(data: Bytes) returns (reply: Reply)
      requires Valid()
      modifies this`first, this`final
      ensures Valid()
      ensures old(first).None? ==>
                && (reply == if ReadFirst(data, allowed).Ok? then Lookup else Fail)
                && (reply == Lookup ==> first == Some(ReadFirst(data, allowed).value))
      ensures old(first).Some? ==>
                var f := old(first).value;
                var r := ReadFinal(data, f.flag, f.cnonce + snonce);
                && first == old(first) && (reply.Success? || reply == Fail)
                && (reply.Success? <==>
                    r.Ok? && ProofMatches(c, storedKey, AuthMessage(f.bare, serverFirst, r.value.withoutProof),
                                          r.value.proof))
                && (reply.Success? ==>
                      var message := AuthMessage(f.bare, serverFirst, r.value.withoutProof);
                      reply.serverFinal == Attr(V, Encode64(c.hmac(serverKey, message))))
    {
      hide ReadFirst, ReadFinal, ProofMatches;
      if first.None? {
        var r := ParseClientFirst(data);
        if r.Err? {
          return Fail;
        }
        first := Some(r.value);
        return Lookup;
      }
      var r := ReadFinal(data, first.value.flag, first.value.cnonce + snonce);
      if r.Err? {
        return Fail;
      }
      final := r.value;
      var matches := VerifyCredentials();
      if !matches {
        return Fail;
      }
      var signature := Base64Encode(c.hmac(serverKey, Message()));
      return Success(Attr(V, signature));
    }
  }

  /** The entry holds the keys of the client's password. */
  ghost predicate Knows(c: Crypto, entry: Bytes, password: Bytes)
    requires c.Valid()
  {
    && Parsed(entry).Ok?
    && var e := Parsed(entry).value;
       var salt := Decode64(e.salt).bytes;
       && e.storedKey == StoredKey(c, password, salt, e.iterations)
       && e.serverKey == ServerKey(c, password, salt, e.iterations)
  }

  lemma GeneratedIsKnown(c: Crypto, password: Bytes, salt: Bytes)
    requires c.Valid()
    ensures Knows(c, Format(DEFAULT_ITERATE_COUNT, Encode64(salt), StoredKey(c, password, salt, DEFAULT_ITERATE_COUNT),
                            ServerKey(c, password, salt, DEFAULT_ITERATE_COUNT)), password)
  {
    hide Hi, Encode64, Decode64, Parsed, Format;
    GeneratedEntry(c, password, salt);
    Base64RoundTrip(salt);
  }

  lemma NonceIsPlain(random: Bytes)
    ensures Plain(Snonce(random))
  {
    hide NonceByte;
  }

  /**
   A client that knows the password is let in, and gets the server's signature, exactly when it asks for no
   other authorization identity.
   */
  method Exchange(c: Crypto, allowed: Bytes -> bool, client: Client, entry: Bytes, random: array<Byte>)
    returns (reply: Reply)
    requires c.Valid() && client.Valid() && allowed(client.user)
             && (client.authzid.Some? ==> allowed(client.authzid.value))
    requires Knows(c, entry, client.password) && random.Length == SERVER_NONCE_LEN
    modifies random
    ensures reply.Success? <==> client.authzid.None?
    ensures reply.Success? ==>
              var e := Parsed(entry).value;
              var nonce := client.cnonce + Snonce(old(random[..]));
              var serverFirst := ServerFirst(client.cnonce, Snonce(old(random[..])), e.salt, e.iterations);
              var serverKey := ServerKey(c, client.password, Decode64(e.salt).bytes, e.iterations);
              var message := client.Bare() + Ascii(",") + serverFirst + Ascii(",") + client.WithoutProof(nonce);
              reply.serverFinal == Ascii("v=") + Encode64(c.hmac(serverKey, message))
  {
    hide ReadFirst, ReadFinal, ProofMatches, Hi, Encode64, Decode64, Parsed, AuthMessage, Client.Proof,
         Client.FinalWith, ServerFirst, Client.FinalMessage, Client.FirstMessage, Client.Bare, Client.WithoutProof,
         StoredKey, ServerKey;
    ghost var e, snonce := Parsed(entry).value, Snonce(random[..]);
    NonceIsPlain(random[..]);
    var server := new Request(c, allowed);
    FirstUnderstood(client, allowed);
    reply := server.Continue(client.FirstMessage());
    var sent := server.Credentials(entry, random);
    ServerFirstUnderstood(c, client, snonce, e.salt, e.iterations);
    FinalUnderstood(c, client, client.cnonce + snonce, Decode64(e.salt).bytes, e.iterations, sent.value);
    ProofAccepted(c, client, client.cnonce + snonce, Decode64(e.salt).bytes, e.iterations, sent.value);
    reply := server.Continue(client.FinalMessage(c, sent.value));
    AuthMessageMeans(client.Bare(), sent.value, client.WithoutProof(client.cnonce + snonce));
  }
}

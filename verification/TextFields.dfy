/**
 Comma-separated fields (`t_strsplit`, `t_strarray_join`, `str_array_remove` in lib/strfuncs.c) and decimal
 numbers (`str_to_uint` in lib/strnum.c).
 */
module TextFields {
  import opened Encoding
  import opened Wrappers

  const COMMA: Byte := 44
  const UINT_MAX := 0xFFFF_FFFF

  // ---------------------------------------------------------------- fields

  /** `t_strndup` stops at a NUL. */
  function UpToNul(raw: seq<Byte>): (r: seq<Byte>)
    ensures (r == raw <==> 0 !in raw) && 0 !in r && |r| <= |raw|
  {
    if raw == [] || raw[0] == 0 then [] else [raw[0]] + UpToNul(raw[1..])
  }

  /** The position of the first comma, or the length. */
  function Comma(s: seq<Byte>): (n: nat)
    ensures n <= |s| && (forall i :: 0 <= i < n ==> s[i] != COMMA) && (n < |s| ==> s[n] == COMMA)
  {
    if s == [] || s[0] == COMMA then 0 else 1 + Comma(s[1..])
  }

  /** An empty string has no fields at all. */
  function Split(s: seq<Byte>): seq<seq<Byte>> {
    if s == [] then [] else Pieces(s)
  }

  function Pieces(s: seq<Byte>): (r: seq<seq<Byte>>)
    ensures r != [] && forall f :: f in r ==> COMMA !in f && forall b :: b in f ==> b in s
  {
    var n := Comma(s);
    if n == |s| then [s] else [s[..n]] + Pieces(s[n + 1..])
  }

  function Join(fields: seq<seq<Byte>>): seq<Byte> {
    if fields == [] then []
    else if |fields| == 1 then fields[0]
    else fields[0] + [COMMA] + Join(fields[1..])
  }

  lemma PiecesStep(f: seq<Byte>, rest: seq<Byte>)
    requires COMMA !in f
    ensures Pieces(f) == [f] && Pieces(f + [COMMA] + rest) == [f] + Pieces(rest)
  {
    hide Comma;
    assert Comma(f) == |f|;
    var s := f + [COMMA] + rest;
    assert s[|f|] == COMMA && forall i :: 0 <= i < |f| ==> s[i] == f[i];
    assert Comma(s) == |f|;
    assert s[..|f|] == f && s[|f| + 1..] == rest;
  }

  lemma {:induction false} PiecesOfJoin(fields: seq<seq<Byte>>)
    requires fields != [] && forall f :: f in fields ==> COMMA !in f
    ensures Pieces(Join(fields)) == fields
    decreases |fields|
  {
    hide Pieces;
    PiecesStep(fields[0], Join(fields[1..]));
    if |fields| > 1 {
      PiecesOfJoin(fields[1..]);
    }
  }

  /** Fields without commas come back, unless they are one empty field. */
  lemma SplitOfJoin(fields: seq<seq<Byte>>)
    requires forall f :: f in fields ==> COMMA !in f
    ensures Split(Join(fields)) == fields <==> fields != [[]]
  {
    if fields != [] {
      PiecesOfJoin(fields);
    }
  }

  /** The first field equal to `f` is taken out. */
  function Without(fields: seq<seq<Byte>>, f: seq<Byte>): seq<seq<Byte>> {
    if fields == [] then []
    else if fields[0] == f then fields[1..]
    else [fields[0]] + Without(fields[1..], f)
  }

  lemma {:induction false} WithoutLast(fields: seq<seq<Byte>>, f: seq<Byte>)
    requires f !in fields
    ensures Without(fields + [f], f) == fields
  {
    if fields != [] {
      WithoutLast(fields[1..], f);
      assert (fields + [f])[1..] == fields[1..] + [f];
    }
  }

  // ---------------------------------------------------------------- numbers

  /** `%d` of a number that is not negative. */
  function ToDecimal(n: nat): (r: seq<Byte>)
    ensures r != []
  {
    if n < 10 then [48 + n] else ToDecimal(n / 10) + [48 + n % 10]
  }

  /** The value of a string of digits, read from the left. */
  function Digits(s: seq<Byte>): Option<nat> {
    if s == [] then Some(0)
    else
      var n := |s| - 1;
      if !(48 <= s[n] <= 57) then None
      else match Digits(s[..n])
        case None => None
        case Some(v) => Some(v * 10 + (s[n] - 48))
  }

  /** `str_to_uint` */
  function ToUint(s: seq<Byte>): Option<nat> {
    if s == [] then None
    else match Digits(s)
      case None => None
      case Some(v) => if v > UINT_MAX then None else Some(v)
  }

  lemma {:induction false} DecimalRoundTrip(n: nat)
    ensures Digits(ToDecimal(n)) == Some(n)
    ensures COMMA !in ToDecimal(n) && 0 !in ToDecimal(n)
  {
    if n < 10 {
      assert ToDecimal(n)[..0] == [];
    } else {
      DecimalRoundTrip(n / 10);
      assert ToDecimal(n)[..|ToDecimal(n)| - 1] == ToDecimal(n / 10);
    }
  }

  /** Each digit is written behind those of the number without it. */
  lemma DecimalMeans(n: nat, digit: nat)
    requires digit < 10
    ensures ToDecimal(digit) == ['0' as int + digit]
    ensures n > 0 ==> ToDecimal(10 * n + digit) == ToDecimal(n) + ['0' as int + digit]
  {
    if n > 0 {
      assert (10 * n + digit) / 10 == n && (10 * n + digit) % 10 == digit;
    }
  }

  /** Only digits are read as a number, and only a number of 32 bits. */
  lemma {:induction false} ToUintMeans(s: seq<Byte>)
    ensures ToUint(s).Some? ==> s != [] && ToUint(s).value <= 0xFFFF_FFFF
    ensures Digits(s).Some? ==> forall i :: 0 <= i < |s| ==> '0' as int <= s[i] <= '9' as int
  {
    if s != [] {
      ToUintMeans(s[..|s| - 1]);
    }
  }
}

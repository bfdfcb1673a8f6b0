/** The secret codec of src/lib/supabase.ts. `EncryptSecret` is the browser's
    `btoa`: base64 as in section 4 of RFC 4648, applied to a string whose
    characters are all at most 0xFF; any other character makes it fail.
    `DecryptSecret` is `atob` (the forgiving-base64 decode algorithm of the
    WHATWG Infra standard) with the source's catch-all fallback: when
    decoding fails, the token itself is returned. */
module SecretCodec {
  import opened Wrappers
  import opened Seqs

  type Byte = b: int | 0 <= b < 256
  type Sextet = v: int | 0 <= v < 64

  // ------------------------------------------------------------ the alphabet

  /** The base64 alphabet of RFC 4648, section 4, table 1. */
  predicate IsAlphabetChar(c: char)
  {
    ('A' <= c <= 'Z') || ('a' <= c <= 'z') || ('0' <= c <= '9') || c == '+' || c == '/'
  }

  /** The character that encodes a 6-bit value: 0..25 are 'A'..'Z',
      26..51 are 'a'..'z', 52..61 are '0'..'9', 62 is '+' and 63 is '/'. */
  function CharOf(v: Sextet): (c: char)
    ensures IsAlphabetChar(c)
  {
    if v < 26 then (65 + v) as char
    else if v < 52 then (97 + v - 26) as char
    else if v < 62 then (48 + v - 52) as char
    else if v == 62 then '+'
    else '/'
  }

  /** The 6-bit value an alphabet character stands for. */
  function ValueOf(c: char): (v: Sextet)
    requires IsAlphabetChar(c)
    ensures CharOf(v) == c
  {
    if 'A' <= c <= 'Z' then c as int - 65
    else if 'a' <= c <= 'z' then c as int - 97 + 26
    else if '0' <= c <= '9' then c as int - 48 + 52
    else if c == '+' then 62
    else 63
  }

  lemma ValueOfCharOf(v: Sextet)
    ensures ValueOf(CharOf(v)) == v
  {
  }

  // ------------------------------------------------------------ encoding

  /** The 6-bit groups of `b`, most significant first: each 24-bit input
      group gives four, and a final group of one or two bytes gives two or
      three, its missing bits taken as zero. Their number is ⌈4n/3⌉ for n
      bytes. */
  function Sextets(b: seq<Byte>): (q: seq<Sextet>)
    ensures 4 * |b| <= 3 * |q| <= 4 * |b| + 2
  {
    if |b| == 0 then []
    else if |b| == 1 then [b[0] / 4, (b[0] % 4) * 16]
    else if |b| == 2 then [b[0] / 4, (b[0] % 4) * 16 + b[1] / 16, (b[1] % 16) * 4]
    else Split3(b[0], b[1], b[2]) + Sextets(b[3..])
  }

  /** One full 24-bit group as four 6-bit values. */
  function Split3(x: Byte, y: Byte, z: Byte): (g: seq<Sextet>)
    ensures |g| == 4
  {
    [x / 4, (x % 4) * 16 + y / 16, (y % 16) * 4 + z / 64, z % 64]
  }

  /** A byte sequence of length n gives 4·⌊n/3⌋ values, plus (n mod 3) + 1
      for a final partial group. */
  lemma {:induction false} SextetsLength(b: seq<Byte>)
    ensures |Sextets(b)| == 4 * (|b| / 3) + (if |b| % 3 == 0 then 0 else |b| % 3 + 1)
    decreases |b|
  {
    if |b| >= 3 {
      SextetsLength(b[3..]);
    }
  }

  function Letters(q: seq<Sextet>): (s: string)
    ensures |s| == |q|
    ensures forall i :: 0 <= i < |q| ==> s[i] == CharOf(q[i])
  {
    seq(|q|, i requires 0 <= i < |q| => CharOf(q[i]))
  }

  /** The '=' characters that complete the last four-character group. */
  function Padding(n: nat): string
  {
    if n % 3 == 1 then "==" else if n % 3 == 2 then "=" else ""
  }

  /** Base64 encoding of a byte sequence, with padding. */
  function Encode(b: seq<Byte>): (s: string)
    ensures |s| == 4 * ((|b| + 2) / 3)
    ensures forall i :: 0 <= i < |s| ==> IsAlphabetChar(s[i]) || s[i] == '='
    ensures b == [] <==> s == []
  {
    SextetsLength(b);
    Letters(Sextets(b)) + Padding(|b|)
  }

  // ------------------------------------------------------------ decoding

  /** ASCII whitespace in the sense of the WHATWG Infra standard: tab, line
      feed, form feed, carriage return and space. */
  predicate IsAsciiWhitespace(c: char)
  {
    c == '\t' || c == '\n' || c == 0x0C as char || c == '\r' || c == ' '
  }

  function NotWs(): char -> bool
  {
    (c: char) => !IsAsciiWhitespace(c)
  }

  /** Step 1 of the forgiving decode: the characters of `s` that are not
      ASCII white space, in their order. */
  function RemoveAsciiWhitespace(s: string): (r: string)
    ensures r == Filter(s, NotWs())
    ensures |r| <= |s|
    ensures forall i :: 0 <= i < |r| ==> !IsAsciiWhitespace(r[i])
    ensures forall c :: c in s && !IsAsciiWhitespace(c) ==> c in r
    ensures forall c :: c in r ==> c in s
  {
    if s == [] then []
    else if IsAsciiWhitespace(s[0]) then RemoveAsciiWhitespace(s[1..])
    else [s[0]] + RemoveAsciiWhitespace(s[1..])
  }

  /** Step 2 of the forgiving decode: one or two trailing '=' are removed. */
  function DropPadding(d: string): (r: string)
    ensures r <= d && |d| - 2 <= |r|
    ensures forall i :: |r| <= i < |d| ==> d[i] == '='
    ensures |d| - |r| == 2 || r == [] || r[|r| - 1] != '='
    ensures |d| >= 1 && d[|d| - 1] == '=' ==> |r| < |d|
  {
    if |d| >= 2 && d[|d| - 2] == '=' && d[|d| - 1] == '=' then d[..|d| - 2]
    else if |d| >= 1 && d[|d| - 1] == '=' then d[..|d| - 1]
    else d
  }

  /** The bytes carried by a sequence of 6-bit values: every four give three
      bytes; a final two give one byte and a final three give two, the
      left-over low bits being discarded. A lone final value, which the
      decode rejects before it gets here, gives no byte. The number of
      bytes is ⌊3q/4⌋ for q values. */
  function FromSextets(q: seq<Sextet>): (r: seq<Byte>)
    ensures 4 * |r| <= 3 * |q| < 4 * |r| + 4
  {
    if |q| <= 1 then []
    else
      var a: int, b: int := q[0], q[1];
      if |q| == 2 then [a * 4 + b / 16]
      else
        var c: int := q[2];
        if |q| == 3 then [a * 4 + b / 16, (b % 16) * 16 + c / 4]
        else Join4(q[0], q[1], q[2], q[3]) + FromSextets(q[4..])
  }

  /** q values, q not of the form 4k + 1, give 3·⌊q/4⌋ bytes, plus
      (q mod 4) − 1 for a final partial group. */
  lemma {:induction false} FromSextetsLength(q: seq<Sextet>)
    requires |q| % 4 != 1
    ensures |FromSextets(q)| == 3 * (|q| / 4) + (if |q| % 4 == 0 then 0 else |q| % 4 - 1)
    decreases |q|
  {
    if |q| >= 4 {
      FromSextetsLength(q[4..]);
    }
  }

  /** Four 6-bit values as the three bytes of a full group. */
  function Join4(a: Sextet, b: Sextet, c: Sextet, d: Sextet): (r: seq<Byte>)
    ensures |r| == 3
  {
    var a: int, b: int, c: int := a, b, c;
    [a * 4 + b / 16, (b % 16) * 16 + c / 4, (c % 4) * 64 + d]
  }

  predicate AllAlphabet(d: string)
  {
    forall i :: 0 <= i < |d| ==> IsAlphabetChar(d[i])
  }

  function Values(d: string): (q: seq<Sextet>)
    requires AllAlphabet(d)
    ensures |q| == |d|
  {
    seq(|d|, i requires 0 <= i < |d| => ValueOf(d[i]))
  }

  /** Steps 1 and 2 of the forgiving decode: ASCII whitespace is removed and,
      when the length is then a multiple of four, so is the padding. */
  function Prepared(data: string): (r: string)
    ensures forall i :: 0 <= i < |r| ==> !IsAsciiWhitespace(r[i])
    ensures r <= RemoveAsciiWhitespace(data) && |RemoveAsciiWhitespace(data)| - 2 <= |r|
    ensures |r| < |RemoveAsciiWhitespace(data)| ==> |RemoveAsciiWhitespace(data)| % 4 == 0
    ensures var d := RemoveAsciiWhitespace(data);
            |d| % 4 == 0 ==> (|d| - |r| == 2 || r == [] || r[|r| - 1] != '=')
    ensures var d := RemoveAsciiWhitespace(data);
            |d| % 4 == 0 && |d| >= 1 && d[|d| - 1] == '=' ==> |r| < |d|
    ensures forall i :: |r| <= i < |RemoveAsciiWhitespace(data)| ==> RemoveAsciiWhitespace(data)[i] == '='
  {
    var d := RemoveAsciiWhitespace(data);
    if |d| % 4 == 0 then DropPadding(d) else d
  }

  /** Forgiving-base64 decode: `None` stands for the algorithm's failure,
      which step 3 (length 4k + 1) and step 4 (a character outside the
      alphabet) report. */
  function Decode(data: string): (r: Option<seq<Byte>>)
    ensures r.Some? <==> |Prepared(data)| % 4 != 1 && AllAlphabet(Prepared(data))
    ensures r.Some? ==> 4 * |r.value| <= 3 * |Prepared(data)| < 4 * |r.value| + 4
    ensures data == "" ==> r == Some([])
  {
    var d := Prepared(data);
    if |d| % 4 == 1 || !AllAlphabet(d) then None
    else Some(FromSextets(Values(d)))
  }

  /** The two failure cases of the forgiving decode that the fallback of
      `DecryptSecret` is there for: a character outside the alphabet, '='
      and ASCII whitespace, and a whitespace-free length of 4k + 1. */
  lemma DecodeRejects(data: string)
    ensures (exists i :: 0 <= i < |data| && !IsAlphabetChar(data[i]) && data[i] != '=' && !IsAsciiWhitespace(data[i]))
            ==> Decode(data).None?
    ensures |RemoveAsciiWhitespace(data)| % 4 == 1 ==> Decode(data).None?
  {
    var d := RemoveAsciiWhitespace(data);
    var d' := Prepared(data);
    if i :| 0 <= i < |data| && !IsAlphabetChar(data[i]) && data[i] != '=' && !IsAsciiWhitespace(data[i]) {
      var c := data[i];
      assert c in data;
      assert c in d;
      var j :| 0 <= j < |d| && d[j] == c;
      assert j < |d'|;
      assert d'[j] == c;
      assert !AllAlphabet(d');
    }
  }

  // ------------------------------------------------------------ strings

  /** Every character of `s` is a single byte (code point at most 0xFF). */
  predicate IsByteString(s: string)
  {
    forall i :: 0 <= i < |s| ==> s[i] as int < 256
  }

  function ToBytes(s: string): (b: seq<Byte>)
    requires IsByteString(s)
    ensures |b| == |s|
  {
    seq(|s|, i requires 0 <= i < |s| && IsByteString(s) => s[i] as int)
  }

  function FromBytes(b: seq<Byte>): (s: string)
    ensures IsByteString(s) && |s| == |b|
  {
    seq(|b|, i requires 0 <= i < |b| => b[i] as char)
  }

  datatype CodecError = InvalidCharacter

  /** `encryptSecret`: `btoa(secret)`, which rejects a character above 0xFF. */
  function EncryptSecret(secret: string): (r: Result<string, CodecError>)
    ensures r.Err? <==> exists i :: 0 <= i < |secret| && secret[i] as int > 0xFF
    ensures r.Ok? ==> |r.value| == 4 * ((|secret| + 2) / 3)
    ensures r.Ok? ==> forall i :: 0 <= i < |r.value| ==> IsAlphabetChar(r.value[i]) || r.value[i] == '='
    ensures secret == "" ==> r == Ok("")
  {
    if IsByteString(secret) then Ok(Encode(ToBytes(secret))) else Err(InvalidCharacter)
  }

  /** `decryptSecret`: `atob(token)`, or the token itself when `atob` throws. */
  function DecryptSecret(token: string): (r: string)
    ensures (exists i :: 0 <= i < |token| && !IsAlphabetChar(token[i]) && token[i] != '=' && !IsAsciiWhitespace(token[i]))
            ==> r == token
    ensures |RemoveAsciiWhitespace(token)| % 4 == 1 ==> r == token
    ensures Decode(token).None? ==> r == token
    ensures r == token || IsByteString(r)
    ensures token == "" ==> r == ""
  {
    DecodeRejects(token);
    match Decode(token)
    case Some(b) => FromBytes(b)
    case None => token
  }

  // ------------------------------------------------------------ round trip

  /** The arithmetic of one full group: three bytes split into four 6-bit
      values and joined again. */
  lemma FullGroup(x: Byte, y: Byte, z: Byte)
    ensures var g := Split3(x, y, z); Join4(g[0], g[1], g[2], g[3]) == [x, y, z]
  {
    var b := (x % 4) * 16 + y / 16;
    var c := (y % 16) * 4 + z / 64;
    assert b / 16 == x % 4 && b % 16 == y / 16;
    assert c / 4 == y % 16 && c % 4 == z / 64;
  }

  /** A final group of one byte. */
  lemma OneByteGroup(x: Byte)
    ensures (x / 4) * 4 + ((x % 4) * 16) / 16 == x
  {
    assert ((x % 4) * 16) / 16 == x % 4;
  }

  /** A final group of two bytes. */
  lemma TwoByteGroup(x: Byte, y: Byte)
    ensures var b, c := (x % 4) * 16 + y / 16, (y % 16) * 4;
            (x / 4) * 4 + b / 16 == x && (b % 16) * 16 + c / 4 == y
  {
    var b := (x % 4) * 16 + y / 16;
    assert b / 16 == x % 4 && b % 16 == y / 16;
    assert ((y % 16) * 4) / 4 == y % 16;
  }

  /** One full group at the front of the input is regrouped into its three bytes. */
  lemma FromSextetsStep(g: seq<Sextet>, rest: seq<Sextet>)
    requires |g| == 4
    ensures FromSextets(g + rest) == Join4(g[0], g[1], g[2], g[3]) + FromSextets(rest)
  {
    assert (g + rest)[4..] == rest;
  }

  lemma SextetsStep(b: seq<Byte>)
    requires |b| >= 3
    ensures Sextets(b) == Split3(b[0], b[1], b[2]) + Sextets(b[3..])
  {
  }

  lemma FullGroupStep(b: seq<Byte>)
    requires |b| >= 3
    ensures FromSextets(Sextets(b)) == [b[0], b[1], b[2]] + FromSextets(Sextets(b[3..]))
  {
    var g, rest := Split3(b[0], b[1], b[2]), Sextets(b[3..]);
    SextetsStep(b);
    FromSextetsStep(g, rest);
    FullGroup(b[0], b[1], b[2]);
  }

  /** Regrouping the 6-bit values of a byte sequence gives the bytes back. */
  lemma {:induction false} SextetsRoundTrip(b: seq<Byte>)
    ensures FromSextets(Sextets(b)) == b
    decreases |b|
  {
    if |b| == 1 {
      OneByteGroup(b[0]);
    } else if |b| == 2 {
      TwoByteGroup(b[0], b[1]);
    } else if |b| >= 3 {
      FullGroupStep(b);
      SextetsRoundTrip(b[3..]);
      assert b == [b[0], b[1], b[2]] + b[3..];
    }
  }

  lemma ValuesOfLetters(q: seq<Sextet>)
    ensures AllAlphabet(Letters(q)) && Values(Letters(q)) == q
  {
    var s := Letters(q);
    forall i | 0 <= i < |q| ensures Values(s)[i] == q[i] {
      ValueOfCharOf(q[i]);
    }
  }

  lemma {:induction false} NoWhitespaceKept(s: string)
    requires forall i :: 0 <= i < |s| ==> !IsAsciiWhitespace(s[i])
    ensures RemoveAsciiWhitespace(s) == s
  {
    if s != [] {
      NoWhitespaceKept(s[1..]);
      assert s == [s[0]] + s[1..];
    }
  }

  lemma EncodeHasNoWhitespace(b: seq<Byte>)
    ensures RemoveAsciiWhitespace(Encode(b)) == Encode(b)
  {
    var e := Encode(b);
    assert forall i :: 0 <= i < |e| ==> !IsAsciiWhitespace(e[i]);
    NoWhitespaceKept(e);
  }

  lemma DropPaddingOf(l: string, p: string)
    requires AllAlphabet(l)
    requires p == "" || p == "=" || p == "=="
    requires p == "=" ==> l != []
    ensures DropPadding(l + p) == l
  {
    var e := l + p;
    if p == "==" {
      assert e[..|e| - 2] == l;
    } else if p == "=" {
      assert e[|e| - 2] == l[|l| - 1];
      assert e[..|e| - 1] == l;
    } else {
      assert e == l;
    }
  }

  /** Steps 1 and 2 of the decode undo exactly the padding of the encode. */
  lemma PreparedEncode(b: seq<Byte>)
    ensures Prepared(Encode(b)) == Letters(Sextets(b))
  {
    var q := Sextets(b);
    var l := Letters(q);
    var e := Encode(b);
    EncodeHasNoWhitespace(b);
    SextetsLength(b);
    PaddedLength(|b|, |q|);
    assert |e| % 4 == 0;
    assert AllAlphabet(l);
    DropPaddingOf(l, Padding(|b|));
  }

  lemma PaddedLength(n: nat, m: nat)
    requires m == 4 * (n / 3) + (if n % 3 == 0 then 0 else n % 3 + 1)
    ensures (m + |Padding(n)|) % 4 == 0
    ensures n % 3 == 2 ==> m > 0
  {
    var k := n / 3;
    if n % 3 == 0 {
      assert m + |Padding(n)| == 4 * k;
    } else if n % 3 == 1 {
      assert m + |Padding(n)| == 4 * k + 4;
    } else {
      assert m + |Padding(n)| == 4 * k + 4;
    }
  }

  /** Decoding an encoding gives the bytes back. */
  lemma DecodeEncode(b: seq<Byte>)
    ensures Decode(Encode(b)) == Some(b)
  {
    var q := Sextets(b);
    var l := Letters(q);
    PreparedEncode(b);
    ValuesOfLetters(q);
    NoLoneValue(b);
    assert Decode(Encode(b)) == Some(FromSextets(q));
    SextetsRoundTrip(b);
  }

  /** An encoding never leaves a 4k + 1 group count for the decode to reject. */
  lemma NoLoneValue(b: seq<Byte>)
    ensures |Sextets(b)| % 4 != 1
  {
    SextetsLength(b);
    var k := |b| / 3;
    if |b| % 3 == 0 {
      assert |Sextets(b)| == 4 * k;
    } else {
      assert |Sextets(b)| == 4 * k + |b| % 3 + 1;
    }
  }

  lemma BytesRoundTrip(s: string)
    requires IsByteString(s)
    ensures FromBytes(ToBytes(s)) == s
  {
  }

  /** For every secret whose characters are single bytes, encryption succeeds
      and decryption gives the secret back. */
  lemma RoundTrip(secret: string)
    requires IsByteString(secret)
    ensures EncryptSecret(secret).Ok?
    ensures DecryptSecret(EncryptSecret(secret).value) == secret
  {
    DecodeEncode(ToBytes(secret));
    BytesRoundTrip(secret);
  }

  /** Test vectors of section 10 of RFC 4648. */
  lemma EncodeVectorF()
    ensures EncryptSecret("f") == Ok("Zg==")
  {
    assert IsByteString("f");
    assert ToBytes("f") == [102];
    assert Sextets([102]) == [25, 32];
    assert CharOf(25) == 'Z' && CharOf(32) == 'g';
    assert Letters([25, 32]) == "Zg";
    assert Encode([102]) == "Zg" + "==";
    assert "Zg" + "==" == "Zg==";
    assert EncryptSecret("f") == Ok(Encode(ToBytes("f")));
  }

  lemma EncodeVectorFo()
    ensures EncryptSecret("fo") == Ok("Zm8=")
  {
    assert IsByteString("fo");
    assert ToBytes("fo") == [102, 111];
    assert Sextets([102, 111]) == [25, 38, 60];
    assert CharOf(25) == 'Z' && CharOf(38) == 'm' && CharOf(60) == '8';
    assert Letters([25, 38, 60]) == "Zm8";
    assert Encode([102, 111]) == "Zm8" + "=";
    assert "Zm8" + "=" == "Zm8=";
    assert EncryptSecret("fo") == Ok(Encode(ToBytes("fo")));
  }

  lemma EncodeVectorFoobar()
    ensures EncryptSecret("foobar") == Ok("Zm9vYmFy")
  {
    assert IsByteString("foobar");
    assert ToBytes("foobar") == [102, 111, 111, 98, 97, 114];
    assert Sextets([98, 97, 114]) == [24, 38, 5, 50];
    assert [102, 111, 111, 98, 97, 114][3..] == [98, 97, 114];
    assert Sextets([102, 111, 111, 98, 97, 114]) == [25, 38, 61, 47, 24, 38, 5, 50];
    assert CharOf(25) == 'Z' && CharOf(38) == 'm' && CharOf(61) == '9' && CharOf(47) == 'v';
    assert CharOf(24) == 'Y' && CharOf(5) == 'F' && CharOf(50) == 'y';
    assert Letters([25, 38, 61, 47, 24, 38, 5, 50]) == "Zm9vYmFy";
    assert Padding(6) == "";
    assert Encode([102, 111, 111, 98, 97, 114]) == "Zm9vYmFy" + "";
    assert "Zm9vYmFy" + "" == "Zm9vYmFy";
    assert EncryptSecret("foobar") == Ok(Encode(ToBytes("foobar")));
  }

  /** A plaintext that is not base64 is shown as it is. */
  lemma DecryptFallbackVector()
    ensures DecryptSecret("sk-live") == "sk-live"
  {
    assert !IsAlphabetChar("sk-live"[2]);
  }
}

/** Unpadded base64url, as PKCE tokens are printed and JWT segments are read. `btoa` and `atob` are modelled after
    section 4 of RFC 4648 and the forgiving decoder of the HTML standard. */
module Base64Url {
  import opened Prelude

  type Byte = x: int | 0 <= x < 256
  type Sextet = x: int | 0 <= x < 64

  // ---- the alphabet ----------------------------------------------------------------------------

  function Enc(x: Sextet): char {
    if x < 26 then ('A' as int + x) as char
    else if x < 52 then ('a' as int + (x - 26)) as char
    else if x < 62 then ('0' as int + (x - 52)) as char
    else if x == 62 then '+' else '/'
  }

  function Dec(c: char): Option<Sextet> {
    if 'A' <= c <= 'Z' then Some(c as int - 'A' as int)
    else if 'a' <= c <= 'z' then Some(c as int - 'a' as int + 26)
    else if '0' <= c <= '9' then Some(c as int - '0' as int + 52)
    else if c == '+' then Some(62)
    else if c == '/' then Some(63)
    else None
  }

  /** The alphabet of section 5 of RFC 4648. */
  predicate IsUrlSafe(c: char) { 'A' <= c <= 'Z' || 'a' <= c <= 'z' || '0' <= c <= '9' || c == '-' || c == '_' }

  function EncAll(xs: seq<Sextet>): (s: string)
    ensures |s| == |xs| && forall i :: 0 <= i < |s| ==> s[i] == Enc(xs[i])
  {
    seq(|xs|, i requires 0 <= i < |xs| => Enc(xs[i]))
  }

  function DecAll(s: string): Option<seq<Sextet>> {
    if s == "" then Some([])
    else
      var x, rest := Dec(s[0]), DecAll(s[1..]);
      if x.None? || rest.None? then None else Some([x.value] + rest.value)
  }

  lemma DecOfOne(x: Sextet)
    ensures Dec(Enc(x)) == Some(x)
  {
  }

  lemma {:induction false} DecOfEnc(xs: seq<Sextet>)
    ensures DecAll(EncAll(xs)) == Some(xs)
  {
    if xs != [] {
      assert EncAll(xs)[1..] == EncAll(xs[1..]);
      DecOfOne(xs[0]);
      DecOfEnc(xs[1..]);
      assert xs == [xs[0]] + xs[1..];
    }
  }

  // ---- bits -----------------------------------------------------------------------------------------

  /** Three bytes as four sextets; one or two left-over bytes as two or three, with zero bits at the end. */
  function Sextets(b: seq<Byte>): seq<Sextet> {
    if |b| == 0 then []
    else if |b| == 1 then [b[0] / 4, b[0] % 4 * 16]
    else if |b| == 2 then [b[0] / 4, b[0] % 4 * 16 + b[1] / 16, b[1] % 16 * 4]
    else [b[0] / 4, b[0] % 4 * 16 + b[1] / 16, b[1] % 16 * 4 + b[2] / 64, b[2] % 64] + Sextets(b[3..])
  }

  function Byte0(x: Sextet, y: Sextet): Byte { var v: int := x as int * 4 + y as int / 16; v }

  function Byte1(y: Sextet, z: Sextet): Byte { var v: int := y as int % 16 * 16 + z as int / 4; v }

  function Byte2(z: Sextet, w: Sextet): Byte { var v: int := z as int % 4 * 64 + w as int; v }

  /** The bytes of the sextets; bits that fill no byte are dropped. */
  function Bytes(xs: seq<Sextet>): seq<Byte> {
    if |xs| < 2 then []
    else if |xs| == 2 then [Byte0(xs[0], xs[1])]
    else if |xs| == 3 then [Byte0(xs[0], xs[1]), Byte1(xs[1], xs[2])]
    else [Byte0(xs[0], xs[1]), Byte1(xs[1], xs[2]), Byte2(xs[2], xs[3])] + Bytes(xs[4..])
  }

  lemma ThreeBytes(a: Byte, b: Byte, c: Byte)
    ensures Byte0(a / 4, a % 4 * 16 + b / 16) == a
    ensures Byte1(a % 4 * 16 + b / 16, b % 16 * 4 + c / 64) == b
    ensures Byte2(b % 16 * 4 + c / 64, c % 64) == c
  {
  }

  lemma {:induction false} BytesOfSextets(b: seq<Byte>)
    ensures Bytes(Sextets(b)) == b
    decreases |b|
  {
    if |b| == 1 {
      ThreeBytes(b[0], 0, 0);
    } else if |b| == 2 {
      ThreeBytes(b[0], b[1], 0);
    } else if |b| >= 3 {
      ThreeBytes(b[0], b[1], b[2]);
      assert Sextets(b)[4..] == Sextets(b[3..]);
      BytesOfSextets(b[3..]);
      assert b == b[..3] + b[3..];
    }
  }

  lemma {:induction false} SextetsLength(b: seq<Byte>)
    ensures |Sextets(b)| == (4 * |b| + 2) / 3
    decreases |b|
  {
    if |b| >= 3 { SextetsLength(b[3..]); }
  }

  // ---- btoa and atob ----------------------------------------------------------------------------------

  /** A string whose characters are byte values. */
  predicate IsBinary(s: string) { forall i :: 0 <= i < |s| ==> (s[i] as int) < 256 }

  function CharCodes(s: string): (b: seq<Byte>)
    requires IsBinary(s)
    ensures |b| == |s| && forall i :: 0 <= i < |s| ==> b[i] == s[i] as int
  {
    seq(|s|, i requires 0 <= i < |s| => s[i] as int)
  }

  function FromCharCodes(b: seq<Byte>): (s: string)
    ensures |s| == |b| && IsBinary(s) && forall i :: 0 <= i < |b| ==> s[i] == b[i] as char
  {
    seq(|b|, i requires 0 <= i < |b| => b[i] as char)
  }

  function Repeat(c: char, n: nat): string { seq(n, _ => c) }

  function Btoa(binary: string): string
    requires IsBinary(binary)
  {
    EncAll(Sextets(CharCodes(binary))) + Repeat('=', (3 - |binary| % 3) % 3)
  }

  /** The white space that `atob` ignores. */
  predicate IsAsciiSpace(c: char) { c == ' ' || c == '\t' || c == '\n' || c == '\r' || c == '\U{C}' }

  function DropSpaces(s: string): string {
    if s == "" then "" else if IsAsciiSpace(s[0]) then DropSpaces(s[1..]) else [s[0]] + DropSpaces(s[1..])
  }

  /** At most two trailing pads, and only off a multiple of four. */
  function DropPads(s: string): string {
    if |s| % 4 != 0 then s
    else if |s| >= 2 && s[|s| - 2..] == "==" then s[..|s| - 2]
    else if |s| >= 1 && Last(s) == '=' then Front(s)
    else s
  }

  /** None: `atob` throws. */
  function Atob(s: string): Option<string> {
    var t := DropPads(DropSpaces(s));
    if |t| % 4 == 1 || DecAll(t).None? then None else Some(FromCharCodes(Bytes(DecAll(t).value)))
  }

  // ---- the two codecs ------------------------------------------------------------------------------------

  function Replace(s: string, c: char, d: char): (r: string)
    ensures |r| == |s| && forall i :: 0 <= i < |s| ==> r[i] == if s[i] == c then d else s[i]
  {
    seq(|s|, i requires 0 <= i < |s| => if s[i] == c then d else s[i])
  }

  /** `s.replace(/=+$/, '')`. */
  function StripPads(s: string): string {
    if s != "" && Last(s) == '=' then StripPads(Front(s)) else s
  }

  function Encode(bytes: seq<Byte>): string {
    StripPads(Replace(Replace(Btoa(FromCharCodes(bytes)), '+', '-'), '/', '_'))
  }

  function Decode(seg: string): Option<seq<Byte>> {
    var b64 := Replace(Replace(seg, '-', '+'), '_', '/');
    var bin := Atob(b64 + Repeat('=', (4 - |b64| % 4) % 4));
    if bin.None? || !IsBinary(bin.value) then None else Some(CharCodes(bin.value))
  }

  method EncodeBytes(bytes: seq<Byte>) returns (token: string)
    ensures token == Encode(bytes)
  {
    var binary := "";
    for i := 0 to |bytes|
      invariant binary == FromCharCodes(bytes[..i])
    {
      binary := binary + [bytes[i] as char];
      assert bytes[..i + 1] == bytes[..i] + [bytes[i]];
    }
    assert bytes[..|bytes|] == bytes;
    var b64 := Btoa(binary);
    token := StripPads(Replace(Replace(b64, '+', '-'), '/', '_'));
  }

  method ToBytes(binary: string) returns (bytes: array<Byte>)
    requires IsBinary(binary)
    ensures bytes[..] == CharCodes(binary)
  {
    bytes := new Byte[|binary|](_ => 0);
    for i := 0 to |binary|
      invariant forall k :: 0 <= k < i ==> bytes[k] == binary[k] as int
    {
      bytes[i] := binary[i] as int;
    }
  }

  method DecodeSegment(seg: string) returns (r: Option<seq<Byte>>)
    ensures r == Decode(seg)
  {
    var b64 := Replace(Replace(seg, '-', '+'), '_', '/');
    var pad := Repeat('=', (4 - |b64| % 4) % 4);
    var bin := Atob(b64 + pad);
    if bin.None? { return None; }
    var bytes := ToBytes(bin.value);
    return Some(bytes[..]);
  }

  // ---- the round trip ----------------------------------------------------------------------------------------

  function UrlEnc(x: Sextet): char { if x == 62 then '-' else if x == 63 then '_' else Enc(x) }

  function UrlEncAll(xs: seq<Sextet>): (s: string)
    ensures |s| == |xs| && forall i :: 0 <= i < |s| ==> s[i] == UrlEnc(xs[i])
  {
    seq(|xs|, i requires 0 <= i < |xs| => UrlEnc(xs[i]))
  }

  lemma UrlEncIsSafe(x: Sextet)
    ensures IsUrlSafe(UrlEnc(x)) && UrlEnc(x) != '=' && !IsAsciiSpace(Enc(x)) && Enc(x) != '='
  {
  }

  lemma {:induction false} StripsRepeat(s: string, n: nat)
    requires forall i :: 0 <= i < |s| ==> s[i] != '='
    ensures StripPads(s + Repeat('=', n)) == s
  {
    var t := s + Repeat('=', n);
    if n == 0 {
      assert t == s;
    } else {
      assert Front(t) == s + Repeat('=', n - 1);
      StripsRepeat(s, n - 1);
    }
  }

  lemma ReplacedIsUrl(xs: seq<Sextet>, n: nat)
    ensures Replace(Replace(EncAll(xs) + Repeat('=', n), '+', '-'), '/', '_') == UrlEncAll(xs) + Repeat('=', n)
  {
    var before, after := EncAll(xs) + Repeat('=', n), UrlEncAll(xs) + Repeat('=', n);
    var r := Replace(Replace(before, '+', '-'), '/', '_');
    forall i | 0 <= i < |r| ensures r[i] == after[i] {
      if i < |xs| { assert before[i] == Enc(xs[i]) && after[i] == UrlEnc(xs[i]); }
    }
  }

  /** The token is the sextets in the url-safe alphabet, nothing else. */
  lemma EncodeIsUrlSextets(b: seq<Byte>)
    ensures Encode(b) == UrlEncAll(Sextets(b))
  {
    var xs := Sextets(b);
    var n := (3 - |b| % 3) % 3;
    assert Btoa(FromCharCodes(b)) == EncAll(xs) + Repeat('=', n) by { assert CharCodes(FromCharCodes(b)) == b; }
    forall i | 0 <= i < |xs| ensures UrlEncAll(xs)[i] != '=' { UrlEncIsSafe(xs[i]); }
    ReplacedIsUrl(xs, n);
    StripsRepeat(UrlEncAll(xs), n);
  }

  lemma {:induction false} NoSpaces(s: string)
    requires forall i :: 0 <= i < |s| ==> !IsAsciiSpace(s[i])
    ensures DropSpaces(s) == s
  {
    if s != "" { NoSpaces(s[1..]); }
  }

  lemma TwoPadsDrop(s: string)
    requires |s| % 4 == 2
    ensures DropPads(s + "==") == s
  {
    var t := s + "==";
    assert t[|t| - 2..] == "==" && t[..|t| - 2] == s;
  }

  lemma OnePadDrops(s: string)
    requires |s| % 4 == 3 && Last(s) != '='
    ensures DropPads(s + "=") == s
  {
    var t := s + "=";
    assert t[|t| - 2..][0] == Last(s) && Front(t) == s;
  }

  lemma NoPadDrops(s: string)
    requires s == "" || Last(s) != '='
    ensures DropPads(s) == s
  {
    if |s| >= 2 { assert s[|s| - 2..][1] == Last(s); }
  }

  lemma PadCount(n: nat)
    requires n % 4 != 1
    ensures if n % 4 == 2 then (4 - n % 4) % 4 == 2 else if n % 4 == 3
      then (4 - n % 4) % 4 == 1 else (4 - n % 4) % 4 == 0
  {
  }

  lemma PaddedHasNoSpaces(s: string, n: nat)
    requires forall i :: 0 <= i < |s| ==> !IsAsciiSpace(s[i])
    ensures DropSpaces(s + Repeat('=', n)) == s + Repeat('=', n)
  {
    NoSpaces(s + Repeat('=', n));
  }

  /** The pads the decoder adds are the pads `atob` takes off. */
  lemma PadsComeOff(s: string, n: nat)
    requires (|s| % 4 == 2 && n == 2) || (|s| % 4 == 3 && n == 1) || (|s| % 4 == 0 && n == 0)
    requires forall i :: 0 <= i < |s| ==> s[i] != '='
    ensures DropPads(s + Repeat('=', n)) == s
  {
    if n == 2 {
      assert Repeat('=', n) == "==";
      TwoPadsDrop(s);
    } else if n == 1 {
      assert Repeat('=', n) == "=";
      OnePadDrops(s);
    } else {
      assert s + Repeat('=', n) == s;
      NoPadDrops(s);
    }
  }

  lemma {:induction false} LengthNeverOneMod4(b: seq<Byte>)
    ensures |Sextets(b)| % 4 != 1
  {
    if |b| >= 3 { LengthNeverOneMod4(b[3..]); }
  }

  lemma UrlEncUndone(xs: seq<Sextet>)
    ensures Replace(Replace(UrlEncAll(xs), '-', '+'), '_', '/') == EncAll(xs)
    ensures forall i :: 0 <= i < |xs| ==> EncAll(xs)[i] != '=' && !IsAsciiSpace(EncAll(xs)[i])
  {
    forall i | 0 <= i < |xs| ensures EncAll(xs)[i] != '=' && !IsAsciiSpace(EncAll(xs)[i]) { UrlEncIsSafe(xs[i]); }
  }

  lemma AtobOfCleaned(s: string, t: string, xs: seq<Sextet>)
    requires DropPads(DropSpaces(s)) == t && |t| % 4 != 1 && DecAll(t) == Some(xs)
    ensures Atob(s) == Some(FromCharCodes(Bytes(xs)))
  {
  }

  lemma AtobOfPadded(xs: seq<Sextet>, n: nat)
    requires (|xs| % 4 == 2 && n == 2) || (|xs| % 4 == 3 && n == 1) || (|xs| % 4 == 0 && n == 0)
    ensures Atob(EncAll(xs) + Repeat('=', n)) == Some(FromCharCodes(Bytes(xs)))
  {
    var s := EncAll(xs);
    UrlEncUndone(xs);
    PaddedHasNoSpaces(s, n);
    PadsComeOff(s, n);
    DecOfEnc(xs);
    AtobOfCleaned(s + Repeat('=', n), s, xs);
  }

  lemma DecodeOf(seg: string, b64: string, bin: string)
    requires b64 == Replace(Replace(seg, '-', '+'), '_', '/') && IsBinary(bin)
    requires Atob(b64 + Repeat('=', (4 - |b64| % 4) % 4)) == Some(bin)
    ensures Decode(seg) == Some(CharCodes(bin))
  {
  }

  /** Decoding an encoded byte string gives it back. */
  lemma RoundTrip(b: seq<Byte>)
    ensures Decode(Encode(b)) == Some(b)
  {
    var xs := Sextets(b);
    EncodeIsUrlSextets(b);
    UrlEncUndone(xs);
    LengthNeverOneMod4(b);
    PadCount(|xs|);
    AtobOfPadded(xs, (4 - |xs| % 4) % 4);
    BytesOfSextets(b);
    DecodeOf(UrlEncAll(xs), EncAll(xs), FromCharCodes(b));
    assert CharCodes(FromCharCodes(b)) == b;
  }

  /** Every character is url-safe, none is a pad, and the length is four thirds of the input's, rounded up. */
  lemma EncodedForm(b: seq<Byte>)
    ensures forall i :: 0 <= i < |Encode(b)| ==> IsUrlSafe(Encode(b)[i])
    ensures |Encode(b)| == (4 * |b| + 2) / 3 && |Encode(b)| % 4 != 1
  {
    EncodeIsUrlSextets(b);
    SextetsLength(b);
    LengthNeverOneMod4(b);
    forall i | 0 <= i < |Encode(b)| ensures IsUrlSafe(Encode(b)[i]) { UrlEncIsSafe(Sextets(b)[i]); }
  }

  /** A verifier made of 64 random bytes has 86 characters, within the 43 to 128 of section 4.1 of RFC 7636. */
  lemma VerifierLength(b: seq<Byte>)
    requires |b| == 64
    ensures |Encode(b)| == 86 && 43 <= |Encode(b)| <= 128
  {
    EncodedForm(b);
  }

  /** Different bytes give different tokens. */
  lemma EncodeIsInjective(a: seq<Byte>, b: seq<Byte>)
    requires Encode(a) == Encode(b)
    ensures a == b
  {
    RoundTrip(a);
    RoundTrip(b);
  }

  // ---- what does not decode -----------------------------------------------------------------------------------

  predicate IsLetter(c: char) { IsUrlSafe(c) || c == '+' || c == '/' }

  lemma {:induction false} DecAllIff(s: string)
    ensures DecAll(s).Some? <==> forall i :: 0 <= i < |s| ==> Dec(s[i]).Some?
  {
    if s != "" {
      DecAllIff(s[1..]);
      assert forall i :: 0 < i < |s| ==> s[i] == s[1..][i - 1];
    }
  }

  lemma ThreePadsStay(s: string)
    requires |s| % 4 == 1 && forall i :: 0 <= i < |s| ==> !IsAsciiSpace(s[i])
    ensures Atob(s + Repeat('=', 3)).None?
  {
    var padded := s + Repeat('=', 3);
    PaddedHasNoSpaces(s, 3);
    assert padded[|padded| - 2..] == "==";
    var t := DropPads(padded);
    assert t == s + ['='] && Dec(t[|s|]) == None;
    DecAllIff(t);
  }

  /** A segment without white space and pads decodes if and only if its length is not one more than a multiple of four
      and every character is a letter of one of the two alphabets; no other makes `atob` content. */
  lemma DecodesIff(seg: string)
    requires forall i :: 0 <= i < |seg| ==> !IsAsciiSpace(seg[i]) && seg[i] != '='
    ensures Decode(seg).Some? <==> |seg| % 4 != 1 && forall i :: 0 <= i < |seg| ==> IsLetter(seg[i])
  {
    var b64 := Replace(Replace(seg, '-', '+'), '_', '/');
    var n := (4 - |b64| % 4) % 4;
    forall i | 0 <= i < |seg|
      ensures !IsAsciiSpace(b64[i]) && b64[i] != '=' && (Dec(b64[i]).Some? <==> IsLetter(seg[i]))
    {
    }
    DecAllIff(b64);
    if |seg| % 4 == 1 {
      ThreePadsStay(b64);
    } else {
      PadCount(|b64|);
      PaddedHasNoSpaces(b64, n);
      PadsComeOff(b64, n);
      if DecAll(b64).Some? { AtobOfCleaned(b64 + Repeat('=', n), b64, DecAll(b64).value); }
    }
  }

  // ---- bit by bit -------------------------------------------------------------------------------------------

  /** The table of section 5 of RFC 4648. */
  const ALPHABET := "ABCDEFGHIJKLMNOPQRSTUVWXYZ" + "abcdefghijklmnopqrstuvwxyz" + "0123456789-_"

  function BitOf(x: Byte, j: nat): int {
    match j
    case 0 => x / 128
    case 1 => x / 64 % 2
    case 2 => x / 32 % 2
    case 3 => x / 16 % 2
    case 4 => x / 8 % 2
    case 5 => x / 4 % 2
    case 6 => x / 2 % 2
    case _ => x % 2
  }

  /** The bits of the bytes in order, the most significant first; zeros after the last. */
  function Bit(b: seq<Byte>, k: nat): int { if k / 8 < |b| then BitOf(b[k / 8], k % 8) else 0 }

  /** Six bits as a number. */
  function SixBits(b: seq<Byte>, i: nat): int {
    32 * Bit(b, 6 * i) + 16 * Bit(b, 6 * i + 1) + 8 * Bit(b, 6 * i + 2) + 4 * Bit(b, 6 * i + 3)
    + 2 * Bit(b, 6 * i + 4) + Bit(b, 6 * i + 5)
  }

  lemma Halve(x: int, n: int)
    requires 0 <= x && n in {2, 4, 8, 16, 32, 64}
    ensures x / n == 2 * (x / (2 * n)) + x / n % 2
  {
  }

  lemma HighBits(x: Byte)
    ensures x / 64 == 2 * BitOf(x, 0) + BitOf(x, 1)
    ensures x / 16 == 8 * BitOf(x, 0) + 4 * BitOf(x, 1) + 2 * BitOf(x, 2) + BitOf(x, 3)
    ensures x / 4 == 32 * BitOf(x, 0) + 16 * BitOf(x, 1) + 8 * BitOf(x, 2) + 4 * BitOf(x, 3) + 2 * BitOf(x, 4)
                     + BitOf(x, 5)
  {
    Halve(x, 4);
    Halve(x, 8);
    Halve(x, 16);
    Halve(x, 32);
    Halve(x, 64);
  }

  lemma LowBits(x: Byte)
    ensures x % 4 == 2 * BitOf(x, 6) + BitOf(x, 7)
    ensures x % 16 == 8 * BitOf(x, 4) + 4 * BitOf(x, 5) + 2 * BitOf(x, 6) + BitOf(x, 7)
    ensures x % 64 == 32 * BitOf(x, 2) + 16 * BitOf(x, 3) + 8 * BitOf(x, 4) + 4 * BitOf(x, 5) + 2 * BitOf(x, 6)
                      + BitOf(x, 7)
  {
    Halve(x, 2);
    Halve(x, 4);
    Halve(x, 8);
    Halve(x, 16);
    Halve(x, 32);
  }

  lemma SixBitsLater(b: seq<Byte>, i: nat)
    requires |b| >= 3
    ensures SixBits(b, i + 4) == SixBits(b[3..], i)
  {
    forall k: nat ensures Bit(b, k + 24) == Bit(b[3..], k) {
      assert (k + 24) / 8 == k / 8 + 3 && (k + 24) % 8 == k % 8;
    }
    assert 6 * (i + 4) == 6 * i + 24;
  }

  /** The byte, or a zero byte after the last. */
  function ByteAt(b: seq<Byte>, k: nat): Byte { if k < |b| then b[k] else 0 }

  lemma FirstSextets(b: seq<Byte>, i: nat)
    requires i < |Sextets(b)| && i < 4
    ensures Sextets(b)[i] == match i
                             case 0 => ByteAt(b, 0) / 4
                             case 1 => ByteAt(b, 0) % 4 * 16 + ByteAt(b, 1) / 16
                             case 2 => ByteAt(b, 1) % 16 * 4 + ByteAt(b, 2) / 64
                             case _ => ByteAt(b, 2) % 64
  {
  }

  lemma BitAt(b: seq<Byte>, k: nat, j: nat)
    requires j < 8
    ensures Bit(b, 8 * k + j) == BitOf(ByteAt(b, k), j)
  {
    assert (8 * k + j) / 8 == k && (8 * k + j) % 8 == j;
  }

  lemma SixBits0(b: seq<Byte>)
    ensures SixBits(b, 0) == ByteAt(b, 0) / 4
  {
    BitAt(b, 0, 0);
    BitAt(b, 0, 1);
    BitAt(b, 0, 2);
    BitAt(b, 0, 3);
    BitAt(b, 0, 4);
    BitAt(b, 0, 5);
    HighBits(ByteAt(b, 0));
  }

  lemma SixBits1(b: seq<Byte>)
    ensures SixBits(b, 1) == ByteAt(b, 0) % 4 * 16 + ByteAt(b, 1) / 16
  {
    BitAt(b, 0, 6);
    BitAt(b, 0, 7);
    BitAt(b, 1, 0);
    BitAt(b, 1, 1);
    BitAt(b, 1, 2);
    BitAt(b, 1, 3);
    LowBits(ByteAt(b, 0));
    HighBits(ByteAt(b, 1));
  }

  lemma SixBits2(b: seq<Byte>)
    ensures SixBits(b, 2) == ByteAt(b, 1) % 16 * 4 + ByteAt(b, 2) / 64
  {
    BitAt(b, 1, 4);
    BitAt(b, 1, 5);
    BitAt(b, 1, 6);
    BitAt(b, 1, 7);
    BitAt(b, 2, 0);
    BitAt(b, 2, 1);
    LowBits(ByteAt(b, 1));
    HighBits(ByteAt(b, 2));
  }

  lemma SixBits3(b: seq<Byte>)
    ensures SixBits(b, 3) == ByteAt(b, 2) % 64
  {
    BitAt(b, 2, 2);
    BitAt(b, 2, 3);
    BitAt(b, 2, 4);
    BitAt(b, 2, 5);
    BitAt(b, 2, 6);
    BitAt(b, 2, 7);
    LowBits(ByteAt(b, 2));
  }

  lemma FirstSixBits(b: seq<Byte>, i: nat)
    requires i < |Sextets(b)| && i < 4
    ensures Sextets(b)[i] == SixBits(b, i)
  {
    FirstSextets(b, i);
    match i
    case 0 => SixBits0(b);
    case 1 => SixBits1(b);
    case 2 => SixBits2(b);
    case _ => SixBits3(b);
  }

  lemma {:induction false} SextetsByBits(b: seq<Byte>, i: nat)
    requires i < |Sextets(b)|
    ensures Sextets(b)[i] == SixBits(b, i)
    decreases |b|
  {
    if i < 4 {
      FirstSixBits(b, i);
    } else {
      SextetsByBits(b[3..], i - 4);
      SixBitsLater(b, i - 4);
    }
  }

  lemma LetterOf(x: Sextet)
    ensures UrlEnc(x) == ALPHABET[x]
  {
    if x < 26 {
      assert ALPHABET[x] == "ABCDEFGHIJKLMNOPQRSTUVWXYZ"[x];
    } else if x < 52 {
      assert ALPHABET[x] == "abcdefghijklmnopqrstuvwxyz"[x - 26];
    } else {
      assert ALPHABET[x] == "0123456789-_"[x - 52];
    }
  }

  /** Each character is the one the table has for its six bits. */
  lemma EncodeByBits(b: seq<Byte>, i: nat)
    requires i < |Encode(b)|
    ensures 0 <= SixBits(b, i) < 64 && Encode(b)[i] == ALPHABET[SixBits(b, i)]
  {
    EncodeIsUrlSextets(b);
    SextetsByBits(b, i);
    LetterOf(Sextets(b)[i]);
  }
}

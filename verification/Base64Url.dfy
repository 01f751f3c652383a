// The URL- and filename-safe base 64 alphabet of section 5 of RFC 4648, without padding.
module Base64Url {
  import opened Collections

  type Byte = b: nat | b < 256
  type Sextet = s: nat | s < 64

  function CharOf(s: Sextet): char {
    if s < 26 then ('A' as int + s) as char
    else if s < 52 then ('a' as int + (s - 26)) as char
    else if s < 62 then ('0' as int + (s - 52)) as char
    else if s == 62 then '-' else '_'
  }

  /** Decoding also takes the two characters of the standard alphabet, and skips any other. */
  function SextetOf(c: char): Option<Sextet> {
    if 'A' <= c <= 'Z' then Some((c - 'A') as nat)
    else if 'a' <= c <= 'z' then Some((c - 'a') as nat + 26)
    else if '0' <= c <= '9' then Some((c - '0') as nat + 52)
    else if c == '-' || c == '+' then Some(62)
    else if c == '_' || c == '/' then Some(63)
    else None
  }

  // Groups of three bytes are groups of four sextets; one or two bytes left give two or three.

  function ToSextets(b: seq<Byte>): seq<Sextet> {
    if b == [] then []
    else if |b| == 1 then [b[0] / 4, b[0] % 4 * 16]
    else if |b| == 2 then [b[0] / 4, b[0] % 4 * 16 + b[1] / 16, b[1] % 16 * 4]
    else [b[0] / 4, b[0] % 4 * 16 + b[1] / 16, b[1] % 16 * 4 + b[2] / 64, b[2] % 64] + ToSextets(b[3..])
  }

  function First(a: nat, b: nat): nat { a * 4 + b / 16 }

  function Second(b: nat, c: nat): nat { b % 16 * 16 + c / 4 }

  function Third(c: nat, d: nat): nat { c % 4 * 64 + d }

  function FromSextets(s: seq<Sextet>): seq<Byte> {
    if |s| < 2 then []
    else if |s| == 2 then [First(s[0], s[1])]
    else if |s| == 3 then [First(s[0], s[1]), Second(s[1], s[2])]
    else [First(s[0], s[1]), Second(s[1], s[2]), Third(s[2], s[3])] + FromSextets(s[4..])
  }

  function Text(s: seq<Sextet>): string {
    seq(|s|, i requires 0 <= i < |s| => CharOf(s[i]))
  }

  function Read(text: string): seq<Sextet> {
    if text == "" then []
    else
      var rest := Read(text[..|text| - 1]);
      match SextetOf(text[|text| - 1])
      case None => rest
      case Some(s) => rest + [s]
  }

  function Encode(b: seq<Byte>): string { Text(ToSextets(b)) }

  function Decode(text: string): seq<Byte> { FromSextets(Read(text)) }

  lemma {:induction false} SextetsRoundTrip(b: seq<Byte>)
    ensures FromSextets(ToSextets(b)) == b
  {
    if |b| > 2 {
      var group := ToSextets(b)[..4];
      assert ToSextets(b)[4..] == ToSextets(b[3..]);
      SextetsRoundTrip(b[3..]);
      GroupRoundTrip(b[0], b[1], b[2]);
      assert b == [b[0], b[1], b[2]] + b[3..];
    } else if |b| == 2 {
      GroupRoundTrip(b[0], b[1], 0);
    } else if |b| == 1 {
      GroupRoundTrip(b[0], 0, 0);
    }
  }

  lemma GroupRoundTrip(x: Byte, y: Byte, z: Byte)
    ensures x / 4 * 4 + (x % 4 * 16 + y / 16) / 16 == x
    ensures (x % 4 * 16 + y / 16) % 16 * 16 + (y % 16 * 4 + z / 64) / 4 == y
    ensures (y % 16 * 4 + z / 64) % 4 * 64 + z % 64 == z
  {
  }

  lemma {:induction false} ReadText(s: seq<Sextet>)
    ensures Read(Text(s)) == s
  {
    if s != [] {
      assert Text(s)[..|s| - 1] == Text(s[..|s| - 1]);
      ReadText(s[..|s| - 1]);
      assert SextetOf(CharOf(s[|s| - 1])) == Some(s[|s| - 1]);
    }
  }

  /** Decoding undoes encoding, and the encoded text holds no dot. */
  lemma RoundTrip(b: seq<Byte>)
    ensures Decode(Encode(b)) == b
    ensures '.' !in Encode(b)
  {
    SextetsRoundTrip(b);
    ReadText(ToSextets(b));
  }

  // The encoding itself.

  /** The alphabet of table 2 of the RFC: capitals, small letters, digits, hyphen and underscore. */
  lemma Alphabet(s: Sextet)
    ensures s < 26 ==> CharOf(s) == "ABCDEFGHIJKLMNOPQRSTUVWXYZ"[s]
    ensures 26 <= s < 52 ==> CharOf(s) == "abcdefghijklmnopqrstuvwxyz"[s - 26]
    ensures 52 <= s ==> CharOf(s) == "0123456789-_"[s - 52]
  {
    Capitals(s);
    SmallLetters(s);
  }

  lemma Capitals(s: Sextet)
    ensures s < 26 ==> CharOf(s) == "ABCDEFGHIJKLMNOPQRSTUVWXYZ"[s]
  {
  }

  lemma SmallLetters(s: Sextet)
    ensures 26 <= s < 52 ==> CharOf(s) == "abcdefghijklmnopqrstuvwxyz"[s - 26]
  {
  }

  /** Three bytes are one number of 24 bits, read as four sextets; what is left over is filled up with zeros. */
  lemma GroupsAreNumbers(b: seq<Byte>)
    requires b != []
    ensures var s := ToSextets(b);
      if |b| == 1 then |s| == 2 && Joined(s) == 16 * b[0] as int
      else if |b| == 2 then |s| == 3 && Joined(s) == 4 * (256 * b[0] as int + b[1] as int)
      else
        && |s| >= 4 && Joined(s[..4]) == 65536 * b[0] as int + 256 * b[1] as int + b[2] as int
        && s[4..] == ToSextets(b[3..])
  {
    if |b| == 1 {
      JoinedTwo(b[0] / 4, b[0] % 4 * 16);
    } else if |b| == 2 {
      JoinedMore(b[0] / 4, b[0] % 4 * 16 + b[1] / 16, b[1] % 16 * 4, 0);
    } else {
      JoinedMore(b[0] / 4, b[0] % 4 * 16 + b[1] / 16, b[1] % 16 * 4 + b[2] / 64, b[2] % 64);
      assert ToSextets(b)[..4] ==
        [b[0] / 4, b[0] % 4 * 16 + b[1] / 16, b[1] % 16 * 4 + b[2] / 64, b[2] % 64];
    }
  }

  /** The number the sextets write, six bits each. */
  function Joined(s: seq<Sextet>): nat {
    if s == [] then 0 else 64 * Joined(s[..|s| - 1]) + s[|s| - 1]
  }

  lemma JoinedTwo(a: Sextet, b: Sextet)
    ensures Joined([a, b]) == 64 * a as int + b as int
  {
    assert Joined([a]) == a by { assert [a][..0] == []; }
    assert [a, b][..1] == [a];
  }

  lemma JoinedMore(a: Sextet, b: Sextet, c: Sextet, d: Sextet)
    ensures Joined([a, b, c]) == 4096 * a as int + 64 * b as int + c as int
    ensures Joined([a, b, c, d]) == 262144 * a as int + 4096 * b as int + 64 * c as int + d as int
  {
    JoinedTwo(a, b);
    assert [a, b, c][..2] == [a, b] && [a, b, c, d][..3] == [a, b, c];
  }
}

/** UTF-8 (section 3 of RFC 3629): the text that is signed is signed as bytes. */
module Utf8 {
  import opened Results
  import opened Sequences

  function Encoded(c: char): seq<Byte> {
    var n := c as int;
    if n < 0x80 then [n]
    else if n < 0x800 then [0xC0 + n / 64, 0x80 + n % 64]
    else if n < 0x1_0000 then [0xE0 + n / 4096, 0x80 + n / 64 % 64, 0x80 + n % 64]
    else [0xF0 + n / 262_144, 0x80 + n / 4096 % 64, 0x80 + n / 64 % 64, 0x80 + n % 64]
  }

  function EncodedAll(s: string): seq<Byte> {
    if s == "" then [] else Encoded(s[0]) + EncodedAll(s[1..])
  }

  /** The first byte says how many there are. */
  function LengthFrom(first: Byte): nat {
    if first < 0x80 then 1 else if first < 0xE0 then 2 else if first < 0xF0 then 3 else 4
  }

  lemma FirstByteTellsLength(c: char)
    ensures Encoded(c) != [] && |Encoded(c)| == LengthFrom(Encoded(c)[0])
  {
  }

  /** The number a character's bytes carry (section 3 of RFC 3629): what is free in the first, six bits in each other. */
  function Carried(bytes: seq<int>): int {
    if |bytes| == 1 then bytes[0]
    else if |bytes| == 2 then (bytes[0] - 0xC0) * 64 + (bytes[1] - 0x80)
    else if |bytes| == 3 then (bytes[0] - 0xE0) * 4096 + (bytes[1] - 0x80) * 64 + (bytes[2] - 0x80)
    else if |bytes| == 4
    then (bytes[0] - 0xF0) * 262_144 + (bytes[1] - 0x80) * 4096 + (bytes[2] - 0x80) * 64 + (bytes[3] - 0x80)
    else 0
  }

  lemma BytesCarry(c: char)
    ensures Carried(Encoded(c)) == c as int
  {
    var n := c as int;
    if n >= 0x80 {
      assert n == n / 64 * 64 + n % 64;
      assert n / 4096 == n / 64 / 64;
      assert n / 262_144 == n / 4096 / 64;
    }
  }

  lemma CharacterIsPrefixFree(c: char, d: char, x: seq<Byte>, y: seq<Byte>)
    requires Encoded(c) + x == Encoded(d) + y
    ensures c == d && x == y
  {
    FirstByteTellsLength(c);
    FirstByteTellsLength(d);
    BytesCarry(c);
    BytesCarry(d);
    hide Encoded, Carried, LengthFrom;
    assert (Encoded(c) + x)[0] == Encoded(c)[0] && (Encoded(d) + y)[0] == Encoded(d)[0];
    Cancel(Encoded(c), Encoded(d), x, y);
  }

  /** Different texts have different bytes. */
  lemma {:induction false} EncodingIsInjective(s: string, t: string)
    requires EncodedAll(s) == EncodedAll(t)
    ensures s == t
  {
    if s == "" || t == "" {
      NothingEncoded(s);
      NothingEncoded(t);
    } else {
      CharacterIsPrefixFree(s[0], t[0], EncodedAll(s[1..]), EncodedAll(t[1..]));
      EncodingIsInjective(s[1..], t[1..]);
      assert s == [s[0]] + s[1..] && t == [t[0]] + t[1..];
    }
  }

  lemma NothingEncoded(s: string)
    ensures EncodedAll(s) == [] <==> s == ""
  {
    if s != "" { FirstByteTellsLength(s[0]); }
  }

  // ---------------------------------------------------------------------------
  // Reading the bytes back

  predicate IsContinuation(b: Byte) {
    0x80 <= b <= 0xBF
  }

  function CharacterFor(n: int): Option<char> {
    if 0 <= n < 0xD800 || 0xE000 <= n < 0x11_0000 then Some(n as char) else None
  }

  /** How many bytes follow a first byte (section 4 of RFC 3629); none for a byte that begins nothing. */
  function Following(first: Byte): Option<nat> {
    if first <= 0x7F then Some(0)
    else if 0xC2 <= first <= 0xDF then Some(1)
    else if 0xE0 <= first <= 0xEF then Some(2)
    else if 0xF0 <= first <= 0xF4 then Some(3)
    else None
  }

  /** The text these bytes are; none if they are not UTF-8. */
  function Decoded(bytes: seq<Byte>): Option<string>
    decreases |bytes|
  {
    if bytes == [] then Some("")
    else
      var n := Following(bytes[0]);
      if n.None? || |bytes| <= n.value || !(forall k | 0 < k <= n.value :: IsContinuation(bytes[k])) then None
      else
        var c := CharacterFor(Carried(bytes[..n.value + 1]));
        var more := Decoded(bytes[n.value + 1..]);
        if c.None? || more.None? then None else Some([c.value] + more.value)
  }

  lemma CharacterIsDecoded(c: char)
    ensures var bytes := Encoded(c);
            && 0 < |bytes| <= 4 && Following(bytes[0]) == Some(|bytes| - 1)
            && (forall k | 0 < k < |bytes| :: IsContinuation(bytes[k]))
  {
  }

  lemma CarriedIsCharacter(c: char)
    ensures 0 < |Encoded(c)| <= 4 && CharacterFor(Carried(Encoded(c))) == Some(c)
  {
    BytesCarry(c);
  }

  /** Decoding gives the text back. */
  lemma {:induction false} EncodedIsDecoded(s: string)
    ensures Decoded(EncodedAll(s)) == Some(s)
  {
    if s != "" {
      var e, more := Encoded(s[0]), EncodedAll(s[1..]);
      CharacterIsDecoded(s[0]);
      CarriedIsCharacter(s[0]);
      EncodedIsDecoded(s[1..]);
      hide Encoded, Following, Carried, CharacterFor, IsContinuation;
      assert (e + more)[0] == e[0] && (e + more)[..|e|] == e && (e + more)[|e|..] == more;
      assert [s[0]] + s[1..] == s;
    }
  }
}

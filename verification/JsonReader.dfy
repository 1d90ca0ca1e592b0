/**
 A reader of JSON (sections 4, 6 and 7 of RFC 8259) without white space, of the kinds of value a
 manifest holds: objects, strings and natural numbers. An object is read as its members, in order.
 */
module JsonReader {
  import opened Results

  datatype Json = Text(s: string) | Number(n: nat) | Object(members: seq<(string, Json)>)

  function HexValue(c: char): Option<nat> {
    if '0' <= c <= '9' then Some((c - '0') as int)
    else if 'a' <= c <= 'f' then Some(10 + (c - 'a') as int)
    else if 'A' <= c <= 'F' then Some(10 + (c - 'A') as int)
    else None
  }

  /** The character that four hexadecimal digits name, unless it is half of a surrogate pair. */
  function HexCharacter(s: string): Option<char>
    requires |s| >= 4
  {
    var a, b, c, d := HexValue(s[0]), HexValue(s[1]), HexValue(s[2]), HexValue(s[3]);
    if a.None? || b.None? || c.None? || d.None? then None
    else
      var n := 4096 * a.value + 256 * b.value + 16 * c.value + d.value;
      if n < 0xD800 || 0xE000 <= n < 0x1_0000 then Some(n as char) else None
  }

  /** A character after a backslash. */
  function ShortEscape(c: char): Option<char> {
    if c == '"' || c == '\\' || c == '/' then Some(c)
    else if c == 'b' then Some(8 as char)
    else if c == 'f' then Some(12 as char)
    else if c == 'n' then Some(10 as char)
    else if c == 'r' then Some(13 as char)
    else if c == 't' then Some(9 as char)
    else None
  }

  /** One character of a string, escaped or not, and how long it is. */
  function ReadCharacter(s: string): (r: Option<(char, nat)>)
    requires s != "" && s[0] != '"'
    ensures r.Some? ==> 0 < r.value.1 <= |s|
  {
    if s[0] as int < 32 then None
    else if s[0] != '\\' then Some((s[0], 1))
    else if |s| < 2 then None
    else if s[1] == 'u' then
      if |s| < 6 then None
      else
        var c := HexCharacter(s[2..6]);
        if c.Some? then Some((c.value, 6)) else None
    else
      var c := ShortEscape(s[1]);
      if c.Some? then Some((c.value, 2)) else None
  }

  /** A string from after its opening quote, and what follows its closing one. */
  function ReadString(s: string): (r: Option<(string, string)>)
    ensures r.Some? ==> |r.value.1| < |s|
    decreases |s|
  {
    if s == "" then None
    else if s[0] == '"' then Some(("", s[1..]))
    else
      var first := ReadCharacter(s);
      if first.None? then None
      else
        var more := ReadString(s[first.value.1..]);
        if more.None? then None else Some(([first.value.0] + more.value.0, more.value.1))
  }

  predicate IsDigit(c: char) {
    '0' <= c <= '9'
  }

  /** The digits that follow, `n` having been read. */
  function ReadDigits(s: string, n: nat): (r: (nat, string))
    ensures |r.1| <= |s|
    decreases |s|
  {
    if s == "" || !IsDigit(s[0]) then (n, s) else ReadDigits(s[1..], 10 * n + (s[0] - '0') as int)
  }

  function ReadValue(s: string): (r: Option<(Json, string)>)
    ensures r.Some? ==> |r.value.1| < |s|
    decreases |s|, 0
  {
    if s == "" then None
    else if s[0] == '"' then
      var text := ReadString(s[1..]);
      if text.None? then None else Some((Text(text.value.0), text.value.1))
    else if s[0] == '0' then Some((Number(0), s[1..]))
    else if IsDigit(s[0]) then
      var (n, rest) := ReadDigits(s[1..], (s[0] - '0') as int);
      Some((Number(n), rest))
    else if s[0] == '{' then
      if |s| > 1 && s[1] == '}' then Some((Object([]), s[2..]))
      else
        var members := ReadMembers(s[1..]);
        if members.None? then None else Some((Object(members.value.0), members.value.1))
    else None
  }

  /** Members up to the closing brace. */
  function ReadMembers(s: string): (r: Option<(seq<(string, Json)>, string)>)
    ensures r.Some? ==> |r.value.1| < |s|
    decreases |s|, 1
  {
    if s == "" || s[0] != '"' then None
    else
      var key := ReadString(s[1..]);
      if key.None? || key.value.1 == "" || key.value.1[0] != ':' then None
      else
        var value := ReadValue(key.value.1[1..]);
        if value.None? || value.value.1 == "" then None
        else if value.value.1[0] == '}' then Some(([(key.value.0, value.value.0)], value.value.1[1..]))
        else if value.value.1[0] != ',' then None
        else
          var more := ReadMembers(value.value.1[1..]);
          if more.None? then None else Some(([(key.value.0, value.value.0)] + more.value.0, more.value.1))
  }
}

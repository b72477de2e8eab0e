/** JSON text as RFC 8259 defines it: whitespace, structure and literals (sections 2 to 5), numbers
(section 6) and strings (section 7).  Characters are code points; a byte of 0x80 or more in a name is
an opaque unescaped character. */
module Json {
  import opened Results

  datatype Json =
    | Null
    | Bool(truth: bool)
    | Number(text: string)
    | String(chars: string)
    | Array(items: seq<Json>)
    | Object(members: seq<Member>)

  datatype Member = Member(name: string, value: Json)

  datatype Parsed<+T> = Parsed(value: T, rest: string)

  // ---- whitespace (section 2)

  predicate IsWs(c: char) {
    c == ' ' || c == '\t' || c == '\n' || c == '\r'
  }

  function SkipWs(s: string): (r: string)
    ensures |r| <= |s|
  {
    if s != [] && IsWs(s[0]) then SkipWs(s[1..]) else s
  }

  predicate StartsWith(s: string, c: char) {
    s != [] && s[0] == c
  }

  // ---- strings (section 7)

  function HexValue(c: char): Option<nat> {
    if '0' <= c <= '9' then Some(c as int - '0' as int)
    else if 'a' <= c <= 'f' then Some(c as int - 'a' as int + 10)
    else if 'A' <= c <= 'F' then Some(c as int - 'A' as int + 10)
    else None
  }

  function Hex4(s: string): Option<nat> {
    if |s| < 4 then None
    else match (HexValue(s[0]), HexValue(s[1]), HexValue(s[2]), HexValue(s[3]))
      case (Some(a), Some(b), Some(c), Some(d)) => Some(4096 * a + 256 * b + 16 * c + d)
      case _ => None
  }

  /** What follows a backslash and `u`; a character outside the first plane takes a surrogate pair. */
  function ParseUnicode(s: string): (r: Option<Parsed<char>>)
    ensures r.Some? ==> |r.value.rest| < |s|
  {
    match Hex4(s)
    case None => None
    case Some(n) =>
      if n < 0xD800 || 0xE000 <= n < 0x10000 then Some(Parsed(n as char, s[4..]))
      else if n >= 0xDC00 || |s| < 6 || s[4] != '\\' || s[5] != 'u' then None
      else match Hex4(s[6..])
        case Some(m) =>
          if 0xDC00 <= m < 0xE000
          then Some(Parsed((0x10000 + (n - 0xD800) * 0x400 + (m - 0xDC00)) as char, s[10..]))
          else None
        case None => None
  }

  function ParseEscape(s: string): (r: Option<Parsed<char>>)
    ensures r.Some? ==> |r.value.rest| < |s|
  {
    if s == [] then None
    else match s[0]
      case '"' => Some(Parsed('"', s[1..]))
      case '\\' => Some(Parsed('\\', s[1..]))
      case '/' => Some(Parsed('/', s[1..]))
      case 'b' => Some(Parsed('\U{8}', s[1..]))
      case 'f' => Some(Parsed('\U{c}', s[1..]))
      case 'n' => Some(Parsed('\n', s[1..]))
      case 'r' => Some(Parsed('\r', s[1..]))
      case 't' => Some(Parsed('\t', s[1..]))
      case 'u' => ParseUnicode(s[1..])
      case _ => None
  }

  /** The characters up to the closing quotation mark. */
  function ParseString(s: string): (r: Option<Parsed<string>>)
    ensures r.Some? ==> |r.value.rest| < |s|
    decreases |s|
  {
    if s == [] then None
    else if s[0] == '"' then Some(Parsed([], s[1..]))
    else if s[0] == '\\' then
      match ParseEscape(s[1..])
      case None => None
      case Some(c) => Prepend(c.value, ParseString(c.rest))
    else if s[0] < ' ' then None
    else Prepend(s[0], ParseString(s[1..]))
  }

  function Prepend(c: char, r: Option<Parsed<string>>): Option<Parsed<string>> {
    match r
    case None => None
    case Some(p) => Some(Parsed([c] + p.value, p.rest))
  }

  // ---- numbers (section 6)

  predicate IsDigit(c: char) {
    '0' <= c <= '9'
  }

  function DigitsEnd(s: string, i: nat): (r: nat)
    requires i <= |s|
    ensures i <= r <= |s|
    decreases |s| - i
  {
    if i < |s| && IsDigit(s[i]) then DigitsEnd(s, i + 1) else i
  }

  function IntEnd(s: string): Option<nat> {
    var i := if StartsWith(s, '-') then 1 else 0;
    if i == |s| || !IsDigit(s[i]) then None
    else if s[i] == '0' then Some(i + 1)
    else Some(DigitsEnd(s, i))
  }

  function FracEnd(s: string, i: nat): Option<nat>
    requires i <= |s|
  {
    if i == |s| || s[i] != '.' then Some(i)
    else if i + 1 == |s| || !IsDigit(s[i + 1]) then None
    else Some(DigitsEnd(s, i + 1))
  }

  function ExpEnd(s: string, i: nat): Option<nat>
    requires i <= |s|
  {
    if i == |s| || (s[i] != 'e' && s[i] != 'E') then Some(i)
    else
      var j := if i + 1 < |s| && (s[i + 1] == '+' || s[i + 1] == '-') then i + 2 else i + 1;
      if j == |s| || !IsDigit(s[j]) then None else Some(DigitsEnd(s, j))
  }

  function ParseNumber(s: string): (r: Option<Parsed<Json>>)
    ensures r.Some? ==> |r.value.rest| < |s|
  {
    match IntEnd(s)
    case None => None
    case Some(i) =>
      match FracEnd(s, i)
      case None => None
      case Some(f) =>
        match ExpEnd(s, f)
        case None => None
        case Some(e) => Some(Parsed(Number(s[..e]), s[e..]))
  }

  // ---- values, objects and arrays (sections 3 to 5)

  function ParseLiteral(s: string, word: string, value: Json): (r: Option<Parsed<Json>>)
    requires word != []
    ensures r.Some? ==> |r.value.rest| < |s|
  {
    if word <= s then Some(Parsed(value, s[|word|..])) else None
  }

  function ParseValue(s: string): (r: Option<Parsed<Json>>)
    ensures r.Some? ==> |r.value.rest| < |s|
    decreases |s|, 0
  {
    var t := SkipWs(s);
    if t == [] then None
    else match t[0]
      case '{' =>
        if StartsWith(SkipWs(t[1..]), '}') then Some(Parsed(Object([]), SkipWs(t[1..])[1..]))
        else (match ParseMembers(t[1..])
          case None => None
          case Some(p) => Some(Parsed(Object(p.value), p.rest)))
      case '[' =>
        if StartsWith(SkipWs(t[1..]), ']') then Some(Parsed(Array([]), SkipWs(t[1..])[1..]))
        else (match ParseItems(t[1..])
          case None => None
          case Some(p) => Some(Parsed(Array(p.value), p.rest)))
      case '"' =>
        (match ParseString(t[1..])
          case None => None
          case Some(p) => Some(Parsed(String(p.value), p.rest)))
      case 't' => ParseLiteral(t, "true", Bool(true))
      case 'f' => ParseLiteral(t, "false", Bool(false))
      case 'n' => ParseLiteral(t, "null", Null)
      case _ => ParseNumber(t)
  }

  /** A name, a colon and a value. */
  function ParseMember(s: string): (r: Option<Parsed<Member>>)
    ensures r.Some? ==> |r.value.rest| < |s|
    decreases |s|, 1
  {
    var t := SkipWs(s);
    if !StartsWith(t, '"') then None
    else match ParseString(t[1..])
      case None => None
      case Some(k) =>
        var u := SkipWs(k.rest);
        if !StartsWith(u, ':') then None
        else match ParseValue(u[1..])
          case None => None
          case Some(v) => Some(Parsed(Member(k.value, v.value), v.rest))
  }

  /** One or more members and the closing brace. */
  function ParseMembers(s: string): (r: Option<Parsed<seq<Member>>>)
    ensures r.Some? ==> |r.value.rest| < |s|
    decreases |s|, 2
  {
    match ParseMember(s)
    case None => None
    case Some(m) =>
      var t := SkipWs(m.rest);
      if StartsWith(t, '}') then Some(Parsed([m.value], t[1..]))
      else if !StartsWith(t, ',') then None
      else match ParseMembers(t[1..])
        case None => None
        case Some(ms) => Some(Parsed([m.value] + ms.value, ms.rest))
  }

  /** One or more values and the closing bracket. */
  function ParseItems(s: string): (r: Option<Parsed<seq<Json>>>)
    ensures r.Some? ==> |r.value.rest| < |s|
    decreases |s|, 1
  {
    match ParseValue(s)
    case None => None
    case Some(v) =>
      var t := SkipWs(v.rest);
      if StartsWith(t, ']') then Some(Parsed([v.value], t[1..]))
      else if !StartsWith(t, ',') then None
      else match ParseItems(t[1..])
        case None => None
        case Some(vs) => Some(Parsed([v.value] + vs.value, vs.rest))
  }

  /** JSON-text = ws value ws. */
  function ParseText(s: string): Option<Json> {
    match ParseValue(s)
    case None => None
    case Some(p) => if SkipWs(p.rest) == [] then Some(p.value) else None
  }
}

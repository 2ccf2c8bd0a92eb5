// JSON values, their printed form, and what parsing a text from a position on yields.

module JsonSpec {
  import opened Arith

  datatype Member = Member(key: string, value: Json)

  /** A number that is not an integer is kept as its text. Members are in the order of a
      sorted map. */
  datatype Json =
    | Null
    | Bool(b: bool)
    | Int(i: int)
    | Number(text: string)
    | Str(s: string)
    | Arr(items: seq<Json>)
    | Obj(members: seq<Member>)

  datatype Code =
    | EXPECT_VALUE | INVALID_VALUE | NUMBER_TOO_BIG | MISS_QUOTATION_MARK | INVALID_STRING_CHAR
    | INVALID_UNICODE_HEX | INVALID_UNICODE_SURROGATE | MISS_COMMA_OR_SQUARE_BRACKET
    | MISS_KEY | MISS_COLON | MISS_COMMA_OR_CURLY_BRACKET | ROOT_NOT_SINGULAR

  /** A value and where it ends, or what is wrong: then the parser is at a position, and has
      left behind some characters of a string that broke off. */
  datatype Parsed<T> = Ok(value: T, next: nat) | Err(code: Code, at: nat := 0, left: nat := 0)

  /** The text is ended by a zero character. */
  ghost predicate Ended(t: string) {
    |t| > 0 && t[|t| - 1] == '\0'
  }

  predicate IsSpace(c: char) {
    c == ' ' || c == '\t' || c == '\n' || c == '\r'
  }

  predicate IsDigit(c: char) {
    '0' <= c <= '9'
  }

  function SkipSpace(t: string, p: nat): (q: nat)
    requires p < |t| && Ended(t)
    ensures p <= q < |t| && !IsSpace(t[q])
    decreases |t| - p
  {
    if IsSpace(t[p]) then SkipSpace(t, p + 1) else p
  }

  // Numbers.

  function DigitsEnd(t: string, p: nat): (q: nat)
    requires p < |t| && Ended(t)
    ensures p <= q < |t| && !IsDigit(t[q]) && forall i :: p <= i < q ==> IsDigit(t[i])
    decreases |t| - p
  {
    if IsDigit(t[p]) then DigitsEnd(t, p + 1) else p
  }

  /** The number a string of digits denotes. */
  function NatOf(s: string): int {
    if s == [] then 0 else 10 * NatOf(s[..|s| - 1]) + (s[|s| - 1] as int - '0' as int)
  }

  function IntOf(s: string): int {
    if s != [] && s[0] == '-' then -NatOf(s[1..]) else NatOf(s)
  }

  /** What a 32-bit register keeps of an integer. */
  function Wrap32(x: int): int {
    var r := x % TWO32;
    if r >= 0x8000_0000 then r - TWO32 else r
  }

  predicate Fits64(x: int) {
    -0x8000_0000_0000_0000 <= x < 0x8000_0000_0000_0000
  }

  /** The end of the integral part, or none. */
  function IntegralEnd(t: string, p: nat): (r: Parsed<bool>)
    requires p < |t| && Ended(t)
    ensures r.Ok? ==> p < r.next < |t|
  {
    var q := if t[p] == '-' then p + 1 else p;
    if t[q] == '0' then Ok(true, q + 1)
    else if '1' <= t[q] <= '9' then Ok(true, DigitsEnd(t, q + 1))
    else Err(INVALID_VALUE)
  }

  /** The end of an optional fraction; the flag says whether there is none. */
  function FractionEnd(t: string, p: nat): (r: Parsed<bool>)
    requires p < |t| && Ended(t)
    ensures r.Ok? ==> p <= r.next < |t|
  {
    if t[p] != '.' then Ok(true, p)
    else if !IsDigit(t[p + 1]) then Err(INVALID_VALUE)
    else Ok(false, DigitsEnd(t, p + 2))
  }

  function ExponentEnd(t: string, p: nat): (r: Parsed<bool>)
    requires p < |t| && Ended(t)
    ensures r.Ok? ==> p <= r.next < |t|
  {
    if t[p] != 'e' && t[p] != 'E' then Ok(true, p)
    else
      var q := if t[p + 1] == '+' || t[p + 1] == '-' then p + 2 else p + 1;
      if !IsDigit(t[q]) then Err(INVALID_VALUE) else Ok(false, DigitsEnd(t, q + 1))
  }

  /** Half a unit above the largest double, (2^54 - 1) * 2^970: from there on a number is
      rounded to infinity. */
  const TWO256: nat := (TWO64 * TWO64) * (TWO64 * TWO64)
  const TWO970: nat := (TWO256 * TWO256) * (TWO256 * (TWO64 * TWO64)) * (TWO64 * 0x400)
  const DOUBLE_END: nat := 0x3F_FFFF_FFFF_FFFF * TWO970

  /** m * 10^k is rounded to infinity. */
  predicate TooBig(m: int, k: int) {
    if k >= 0 then m * Pow(10, k) >= DOUBLE_END else m >= DOUBLE_END * Pow(10, -k)
  }

  /** The exponent a text says, with a sign or without. */
  function ExponentOf(s: string): int {
    if s != [] && s[0] == '+' then NatOf(s[1..]) else IntOf(s)
  }

  /** The text t[p..c] of a number with its fraction from a to b and its exponent from b on
      denotes one that is rounded to infinity. */
  predicate Infinite(t: string, p: nat, a: nat, b: nat, c: nat)
    requires p < a <= b <= c <= |t|
  {
    var start := if t[p] == '-' then p + 1 else p;
    var decimals := if a < b then t[a + 1..b] else [];
    TooBig(NatOf(t[start..a] + decimals), (if b < c then ExponentOf(t[b + 1..c]) else 0) - |decimals|)
  }

  function ParseNumber(t: string, p: nat): (r: Parsed<Json>)
    requires p < |t| && Ended(t)
    ensures if r.Ok? then p < r.next < |t| else r.at < |t|
  {
    var a := IntegralEnd(t, p);
    if a.Err? then Err(a.code, p)
    else
      var b := FractionEnd(t, a.next);
      if b.Err? then Err(b.code, p)
      else
        var c := ExponentEnd(t, b.next);
        if c.Err? then Err(c.code, p)
        else
          var text := t[p..c.next];
          if !b.value || !c.value then
            if Infinite(t, p, a.next, b.next, c.next) then Err(NUMBER_TOO_BIG, p) else Ok(Number(text), c.next)
          else if Fits64(IntOf(text)) then Ok(Int(Wrap32(IntOf(text))), c.next)
          else Err(NUMBER_TOO_BIG, p)
  }

  function ParseLiteral(t: string, p: nat, literal: string, v: Json): (r: Parsed<Json>)
    requires p < |t| && Ended(t) && literal != [] && '\0' !in literal
    ensures if r.Ok? then p < r.next < |t| else r.at < |t|
  {
    if p + |literal| <= |t| && t[p..p + |literal|] == literal then
      assert t[p + |literal| - 1] == literal[|literal| - 1];
      Ok(v, p + |literal|)
    else Err(INVALID_VALUE, p)
  }

  // Strings.

  /** The value of a hexadecimal digit, as generous as the source. */
  function HexValue(c: char): int {
    if '0' <= c <= '9' then c as int - '0' as int
    else if 'A' <= c <= 'Z' then c as int - 'A' as int + 10
    else if 'a' <= c <= 'z' then c as int - 'a' as int + 10
    else -1
  }

  /** Bitwise or of a multiple of 16 and a number below 36. */
  function OrDigit(u: nat, d: nat): nat
    requires u % 16 == 0 && d < 36
  {
    if d < 16 then u + d
    else if d < 32 then (if (u / 16) % 2 == 0 then u + d else u + d - 16)
    else (if (u / 32) % 2 == 0 then 32 else 0) + u + d - 32
  }

  /** Up to k hexadecimal digits after position p, into the digits so far. */
  function Hex(t: string, p: nat, k: nat, u: nat): (r: Parsed<nat>)
    requires p < |t| && Ended(t) && t[p] != '\0'
    ensures r.Ok? ==> r.next == p + k < |t| && t[r.next] != '\0'
    decreases k
  {
    if k == 0 then Ok(u, p)
    else if HexValue(t[p + 1]) < 0 then Err(INVALID_UNICODE_HEX)
    else Hex(t, p + 1, k - 1, OrDigit(u * 16, HexValue(t[p + 1])))
  }

  function Byte(x: int): char {
    (x % 256) as char
  }

  /** The bytes of a code point. */
  function EncodeUtf8(u: nat): string {
    if u <= 0x7F then [Byte(u)]
    else if u <= 0x7FF then [Byte(0xC0 + (u / 64) % 64), Byte(0x80 + u % 64)]
    else if u <= 0xFFFF then [Byte(0xE0 + (u / 4096) % 32), Byte(0x80 + (u / 64) % 64), Byte(0x80 + u % 64)]
    else [Byte(0xF0 + (u / 262144) % 16), Byte(0x80 + (u / 4096) % 64), Byte(0x80 + (u / 64) % 64), Byte(0x80 + u % 64)]
  }

  /** A character after a backslash, or none. */
  function Unescaped(c: char): Parsed<char> {
    if c == '\"' then Ok('\"', 0)
    else if c == '\\' then Ok('\\', 0)
    else if c == '/' then Ok('/', 0)
    else if c == 'b' then Ok(8 as char, 0)
    else if c == 't' then Ok('\t', 0)
    else if c == 'n' then Ok('\n', 0)
    else if c == 'r' then Ok('\r', 0)
    else if c == 'f' then Ok(12 as char, 0)
    else Err(INVALID_STRING_CHAR)
  }

  /** A code point escape, with p at its letter u; a high surrogate needs a low one. */
  function Unicode(t: string, p: nat): (r: Parsed<nat>)
    requires p < |t| && Ended(t) && t[p] != '\0'
    ensures r.Ok? ==> p < r.next < |t| && t[r.next] != '\0'
  {
    var high := Hex(t, p, 4, 0);
    if high.Err? then high
    else if !(0xD800 <= high.value <= 0xDBFF) then high
    else if t[high.next + 1] != '\\' || t[high.next + 2] != 'u' then Err(INVALID_UNICODE_SURROGATE)
    else
      var low := Hex(t, high.next + 2, 4, 0);
      if low.Err? then low
      else if !(0xDC00 <= low.value <= 0xDFFF) then Err(INVALID_UNICODE_SURROGATE)
      else Ok((high.value - 0xD800) * 1024 + (low.value - 0xDC00) + 0x10000, low.next)
  }

  /** The rest of a string after position p, which holds its opening quote or a character
      of it; read is what has been read. */
  function Scan(t: string, p: nat, read: string): (r: Parsed<string>)
    requires p < |t| && Ended(t) && t[p] != '\0'
    ensures r.Ok? ==> p < r.next < |t|
    decreases |t| - p
  {
    var c := t[p + 1];
    if c == '\"' then Ok(read, p + 2)
    else if c == '\0' then Err(MISS_QUOTATION_MARK)
    else if c == '\\' then
      if t[p + 2] == 'u' then
        var u := Unicode(t, p + 2);
        if u.Err? then Err(u.code, 0, |read|) else Scan(t, u.next, read + EncodeUtf8(u.value))
      else
        var e := Unescaped(t[p + 2]);
        if e.Err? then Err(e.code, 0, |read|) else Scan(t, p + 2, read + [e.value])
    else if c as int < 0x20 then Err(INVALID_STRING_CHAR)
    else Scan(t, p + 1, read + [c])
  }

  // Values.

  /** The order of the keys of a sorted map. */
  predicate KeyLess(a: string, b: string) {
    if b == [] then false
    else if a == [] then true
    else if a[0] != b[0] then a[0] < b[0]
    else KeyLess(a[1..], b[1..])
  }

  /** Adds a member unless the key is there already. */
  function Insert(members: seq<Member>, key: string, value: Json): seq<Member> {
    if members == [] then [Member(key, value)]
    else if members[0].key == key then members
    else if KeyLess(key, members[0].key) then [Member(key, value)] + members
    else [members[0]] + Insert(members[1..], key, value)
  }

  function ParseValue(t: string, p: nat): (r: Parsed<Json>)
    requires p < |t| && Ended(t)
    ensures if r.Ok? then p < r.next < |t| else r.at < |t|
    decreases |t| - p, 1
  {
    var c := t[p];
    if c == 't' then ParseLiteral(t, p, "true", Bool(true))
    else if c == 'f' then ParseLiteral(t, p, "false", Bool(false))
    else if c == 'n' then ParseLiteral(t, p, "null", Null)
    else if c == '\0' then Err(EXPECT_VALUE, p)
    else if c == '\"' then
      var r := Scan(t, p, []);
      if r.Err? then Err(r.code, p, r.left) else Ok(Str(r.value), r.next)
    else if c == '[' then
      var q := SkipSpace(t, p + 1);
      if t[q] == ']' then Ok(Arr([]), q + 1) else ParseItems(t, q, [])
    else if c == '{' then
      var q := SkipSpace(t, p + 1);
      if t[q] == '}' then Ok(Obj([]), q + 1) else ParseMembers(t, q, [])
    else ParseNumber(t, p)
  }

  /** The rest of an array from its next item on. */
  function ParseItems(t: string, p: nat, read: seq<Json>): (r: Parsed<Json>)
    requires p < |t| && Ended(t)
    ensures if r.Ok? then p < r.next < |t| else r.at < |t|
    decreases |t| - p, 2
  {
    var item := ParseValue(t, p);
    if item.Err? then item
    else
      var q := SkipSpace(t, item.next);
      if t[q] == ',' then ParseItems(t, SkipSpace(t, q + 1), read + [item.value])
      else if t[q] == ']' then Ok(Arr(read + [item.value]), q + 1)
      else Err(MISS_COMMA_OR_SQUARE_BRACKET, q)
  }

  /** The rest of an object from its next member on. */
  function ParseMembers(t: string, p: nat, read: seq<Member>): (r: Parsed<Json>)
    requires p < |t| && Ended(t)
    ensures if r.Ok? then p < r.next < |t| else r.at < |t|
    decreases |t| - p, 2
  {
    if t[p] != '\"' then Err(MISS_KEY, p)
    else
      var key := Scan(t, p, []);
      if key.Err? then Err(key.code, p, key.left)
      else
        var q := SkipSpace(t, key.next);
        if t[q] != ':' then Err(MISS_COLON, q)
        else
          var value := ParseValue(t, SkipSpace(t, q + 1));
          if value.Err? then value
          else
            var members := Insert(read, key.value, value.value);
            var e := SkipSpace(t, value.next);
            if t[e] == '}' then Ok(Obj(members), e + 1)
            else if t[e] == ',' then ParseMembers(t, SkipSpace(t, e + 1), members)
            else Err(MISS_COMMA_OR_CURLY_BRACKET, e)
  }

  // One step of the grammar at a time.

  /** What is left of an object that goes on at e, after the members so far. */
  ghost predicate AfterMember(t: string, e: nat, rest: Parsed<Json>, members: seq<Member>)
    requires e < |t| && Ended(t)
  {
    && (t[e] == '}' ==> rest == Ok(Obj(members), e + 1))
    && (t[e] == ',' ==> rest == ParseMembers(t, SkipSpace(t, e + 1), members))
    && (t[e] != '}' && t[e] != ',' ==> rest == Err(MISS_COMMA_OR_CURLY_BRACKET, e))
  }

  /** What stands behind an opening bracket. */
  lemma ArrayOpens(t: string, p: nat)
    requires p < |t| && Ended(t) && t[p] == '['
    ensures var q := SkipSpace(t, p + 1);
            ParseValue(t, p) == if t[q] == ']' then Ok(Arr([]), q + 1) else ParseItems(t, q, [])
  {
    hide ParseItems, SkipSpace;
  }

  /** What stands behind an opening brace. */
  lemma ObjectOpens(t: string, p: nat)
    requires p < |t| && Ended(t) && t[p] == '{'
    ensures var q := SkipSpace(t, p + 1);
            ParseValue(t, p) == if t[q] == '}' then Ok(Obj([]), q + 1) else ParseMembers(t, q, [])
  {
    hide ParseMembers, SkipSpace;
  }

  /** What an array's next item leads to. */
  lemma ItemStep(t: string, p: nat, read: seq<Json>)
    requires p < |t| && Ended(t)
    ensures var item := ParseValue(t, p);
            if item.Err? then ParseItems(t, p, read) == item
            else
              var q := SkipSpace(t, item.next);
              && (t[q] == ',' ==> ParseItems(t, p, read) == ParseItems(t, SkipSpace(t, q + 1), read + [item.value]))
              && (t[q] == ']' ==> ParseItems(t, p, read) == Ok(Arr(read + [item.value]), q + 1))
              && (t[q] != ',' && t[q] != ']' ==> ParseItems(t, p, read) == Err(MISS_COMMA_OR_SQUARE_BRACKET, q))
  {
  }

  /** What an object's next member leads to. */
  lemma MemberStep(t: string, p: nat, read: seq<Member>)
    requires p < |t| && Ended(t)
    ensures t[p] != '\"' ==> ParseMembers(t, p, read) == Err(MISS_KEY, p)
    ensures t[p] == '\"' ==>
              var key := Scan(t, p, []);
              if key.Err? then ParseMembers(t, p, read) == Err(key.code, p, key.left)
              else
                var q := SkipSpace(t, key.next);
                if t[q] != ':' then ParseMembers(t, p, read) == Err(MISS_COLON, q)
                else
                  var value := ParseValue(t, SkipSpace(t, q + 1));
                  if value.Err? then ParseMembers(t, p, read) == value
                  else
                    var members, e := Insert(read, key.value, value.value), SkipSpace(t, value.next);
                    AfterMember(t, e, ParseMembers(t, p, read), members)
  {
    hide SkipSpace, Scan, ParseValue, Insert;
  }

  // Printing.

  function HexDigit(d: nat): char
    requires d < 16
  {
    if d < 10 then ('0' as int + d) as char else ('A' as int + d - 10) as char
  }

  function PrintChar(c: char): string {
    if c == '\"' then "\\\""
    else if c == '/' then "\\/"
    else if c == '\\' then "\\\\"
    else if c as int == 8 then "\\b"
    else if c == '\t' then "\\t"
    else if c == '\r' then "\\r"
    else if c as int == 12 then "\\f"
    else if c == '\n' then "\\n"
    else if c as int < 0x20 then "\\u00" + [HexDigit(c as int / 16), HexDigit(c as int % 16)]
    else [c]
  }

  function PrintChars(s: string): string {
    if s == [] then [] else PrintChar(s[0]) + PrintChars(s[1..])
  }

  function PrintString(s: string): string {
    "\"" + PrintChars(s) + "\""
  }

  function Digits(n: nat): (s: string)
    ensures |s| > 0
  {
    var last := ['0' + (n % 10) as char];
    if n < 10 then last else Digits(n / 10) + last
  }

  function PrintInt(i: int): string {
    if i < 0 then "-" + Digits(-i) else Digits(i)
  }

  function Print(v: Json): string {
    match v
    case Null => "null"
    case Bool(b) => if b then "true" else "false"
    case Int(i) => PrintInt(i)
    case Number(text) => text
    case Str(s) => PrintString(s)
    case Arr(items) => "[" + PrintItems(items) + "]"
    case Obj(members) => "{" + PrintMembers(members) + "}"
  }

  function PrintItems(items: seq<Json>): string {
    if items == [] then []
    else if |items| == 1 then Print(items[0])
    else Print(items[0]) + "," + PrintItems(items[1..])
  }

  /** Keys are printed as they are. */
  function PrintMember(m: Member): string {
    "\"" + m.key + "\":" + Print(m.value)
  }

  function PrintMembers(members: seq<Member>): string {
    if members == [] then []
    else if |members| == 1 then PrintMember(members[0])
    else PrintMember(members[0]) + "," + PrintMembers(members[1..])
  }
}

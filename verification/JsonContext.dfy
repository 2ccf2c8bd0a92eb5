// The JSON parser and printer as they run: a position that moves over the text, a stack of
// characters of the string being read, and a text that the printer appends to.

module JsonContext {
  import opened Arith
  import opened JsonSpec
  import opened JsonUnicode
  import JsonGrammar

  datatype Result = Done(value: Json) | Failed(code: Code)

  /** The text being printed. */
  class Text {
    var s: string

    constructor ()
      ensures s == []
    {
      s := [];
    }

    method StringifyString(r: string)
      modifies this
      ensures s == old(s) + PrintString(r)
    {
      hide PrintChar;
      s := s + "\"";
      ghost var start := s;
      for i := 0 to |r|
        invariant s + PrintChars(r[i..]) == start + PrintChars(r)
      {
        assert r[i..][0] == r[i] && r[i..][1..] == r[i + 1..];
        assert s + (PrintChar(r[i]) + PrintChars(r[i + 1..])) == (s + PrintChar(r[i])) + PrintChars(r[i + 1..]);
        s := s + PrintChar(r[i]);
      }
      assert r[|r|..] == [];
      assert s + [] == s;
      s := s + "\"";
    }

    method StringifyValue(v: Json)
      modifies this
      ensures s == old(s) + Print(v)
      decreases v, 1
    {
      hide PrintString, PrintInt, PrintItems, PrintMembers;
      match v {
        case Null => s := s + "null";
        case Bool(b) => s := s + if b then "true" else "false";
        case Int(i) => s := s + PrintInt(i);
        case Number(text) => s := s + text;
        case Str(r) => StringifyString(r);
        case Arr(items) => StringifyItems(items);
        case Obj(members) => StringifyMembers(members);
      }
    }

    method StringifyItems(items: seq<Json>)
      modifies this
      ensures s == old(s) + ("[" + PrintItems(items) + "]")
      decreases items, 0
    {
      hide Print, PrintItems, ItemsTail;
      TailEnds(items);
      s := s + "[";
      ghost var start := s;
      var flag := false;
      for i := 0 to |items|
        invariant flag <==> i > 0
        invariant s + ItemsTail(items, i) == start + PrintItems(items)
      {
        NextTail(s, items, i);
        if flag {
          s := s + ",";
        } else {
          assert s + "" == s;
          flag := true;
        }
        StringifyValue(items[i]);
      }
      assert s + [] == s;
      s := s + "]";
    }

    method StringifyMember(m: Member)
      modifies this
      ensures s == old(s) + PrintMember(m)
      decreases m, 0
    {
      hide Print;
      s := s + "\"";
      s := s + m.key;
      s := s + "\"";
      s := s + ":";
      StringifyValue(m.value);
    }

    method StringifyMembers(members: seq<Member>)
      modifies this
      ensures s == old(s) + ("{" + PrintMembers(members) + "}")
      decreases members, 0
    {
      hide PrintMember, PrintMembers, MembersTail;
      MemberTailEnds(members);
      s := s + "{";
      ghost var start := s;
      var flag := false;
      for i := 0 to |members|
        invariant flag <==> i > 0
        invariant s + MembersTail(members, i) == start + PrintMembers(members)
      {
        NextMemberTail(s, members, i);
        if flag {
          s := s + ",";
        } else {
          assert s + "" == s;
          flag := true;
        }
        StringifyMember(members[i]);
      }
      assert s + [] == s;
      s := s + "}";
    }
  }

  /** What is still to be printed of an array's items from position i on. */
  ghost function ItemsTail(items: seq<Json>, i: nat): string
    requires i <= |items|
  {
    if i == |items| then []
    else if i == 0 then PrintItems(items)
    else "," + PrintItems(items[i..])
  }

  lemma TailEnds(items: seq<Json>)
    ensures ItemsTail(items, 0) == PrintItems(items) && ItemsTail(items, |items|) == []
  {
  }

  lemma NextTail(s: string, items: seq<Json>, i: nat)
    requires i < |items|
    ensures s + ItemsTail(items, i) == s + (if i > 0 then "," else "") + Print(items[i]) + ItemsTail(items, i + 1)
  {
    hide Print;
    assert items[i..][0] == items[i] && items[i..][1..] == items[i + 1..];
    assert items[0..] == items;
  }

  ghost function MembersTail(members: seq<Member>, i: nat): string
    requires i <= |members|
  {
    if i == |members| then []
    else if i == 0 then PrintMembers(members)
    else "," + PrintMembers(members[i..])
  }

  lemma MemberTailEnds(members: seq<Member>)
    ensures MembersTail(members, 0) == PrintMembers(members) && MembersTail(members, |members|) == []
  {
  }

  lemma NextMemberTail(s: string, members: seq<Member>, i: nat)
    requires i < |members|
    ensures var comma := if i > 0 then "," else "";
            s + MembersTail(members, i) == s + comma + PrintMember(members[i]) + MembersTail(members, i + 1)
  {
    hide PrintMember;
    assert members[i..][0] == members[i] && members[i..][1..] == members[i + 1..];
    assert members[0..] == members;
  }

  /** The parser returned what parsing from there yields, and stands behind it. */
  ghost predicate Yields(r: Result, ptr: nat, top: nat, expected: Parsed<Json>) {
    match expected
    case Ok(value, next) => r == Done(value) && ptr == next
    case Err(code, at, left) => r == Failed(code) && ptr == at && top == left
  }

  class Context {
    const json: string
    var ptr: nat
    var strTop: nat
    var stkStr: string

    /** The position is in the text, and no string is being read. */
    ghost predicate Ready()
      reads this
    {
      Ended(json) && ptr < |json| && strTop == 0 && stkStr == []
    }

    constructor (text: string)
      ensures json == text + ['\0'] && Ready() && ptr == 0
    {
      json := text + ['\0'];
      ptr, strTop, stkStr := 0, 0, [];
    }

    method ParseWhitespace()
      requires Ended(json) && ptr < |json|
      modifies this`ptr
      ensures ptr == SkipSpace(json, old(ptr)) && (old(Ready()) ==> Ready())
    {
      var tmp := ptr;
      while IsSpace(json[tmp])
        invariant tmp < |json| && SkipSpace(json, ptr) == SkipSpace(json, tmp)
        decreases |json| - tmp
      {
        tmp := tmp + 1;
      }
      ptr := tmp;
    }

    method ParseLiteral(literal: string, v: Json) returns (r: Result)
      requires Ready() && literal != [] && '\0' !in literal
      modifies this`ptr
      ensures Yields(r, ptr, strTop, JsonSpec.ParseLiteral(json, old(ptr), literal, v)) && (r.Done? ==> Ready())
    {
      var i := 0;
      while i < |literal|
        invariant i <= |literal| && ptr + i < |json| && json[ptr..ptr + i] == literal[..i]
      {
        if json[i + ptr] != literal[i] {
          assert ptr + |literal| <= |json| ==> json[ptr..ptr + |literal|][i] == json[ptr + i];
          return Failed(INVALID_VALUE);
        }
        i := i + 1;
      }
      assert literal[..i] == literal;
      ptr := ptr + i;
      r := Done(v);
    }

    /** The first position from p on that holds no digit. */
    method SkipDigits(p: nat) returns (q: nat)
      requires Ended(json) && p < |json|
      ensures q == DigitsEnd(json, p)
    {
      q := p;
      while IsDigit(json[q])
        invariant q < |json| && DigitsEnd(json, p) == DigitsEnd(json, q)
        decreases |json| - q
      {
        q := q + 1;
      }
    }

    /** The integral part of a number, with its sign. */
    method IntegralPart(p: nat) returns (r: Parsed<bool>)
      requires Ended(json) && p < |json|
      ensures r == IntegralEnd(json, p)
    {
      var tmp := p;
      if json[tmp] == '-' {
        tmp := tmp + 1;
      }
      if json[tmp] == '0' {
        tmp := tmp + 1;
      } else {
        if !('1' <= json[tmp] <= '9') {
          return Err(INVALID_VALUE);
        }
        tmp := SkipDigits(tmp + 1);
      }
      r := Ok(true, tmp);
    }

    /** The fraction, when there is one. */
    method FractionPart(p: nat) returns (r: Parsed<bool>)
      requires Ended(json) && p < |json|
      ensures r == FractionEnd(json, p)
    {
      var tmp, isInteger := p, true;
      if json[tmp] == '.' {
        isInteger := false;
        tmp := tmp + 1;
        if !IsDigit(json[tmp]) {
          return Err(INVALID_VALUE);
        }
        tmp := SkipDigits(tmp + 1);
      }
      r := Ok(isInteger, tmp);
    }

    /** The exponent, when there is one. */
    method ExponentPart(p: nat) returns (r: Parsed<bool>)
      requires Ended(json) && p < |json|
      ensures r == ExponentEnd(json, p)
    {
      var tmp, isInteger := p, true;
      if json[tmp] == 'e' || json[tmp] == 'E' {
        isInteger := false;
        tmp := tmp + 1;
        if json[tmp] == '+' || json[tmp] == '-' {
          tmp := tmp + 1;
        }
        if !IsDigit(json[tmp]) {
          return Err(INVALID_VALUE);
        }
        tmp := SkipDigits(tmp + 1);
      }
      r := Ok(isInteger, tmp);
    }

    method ParseNumber() returns (r: Result)
      requires Ready()
      modifies this`ptr
      ensures Yields(r, ptr, strTop, JsonSpec.ParseNumber(json, old(ptr))) && (r.Done? ==> Ready())
    {
      hide IntOf, Wrap32, Fits64, IntegralEnd, FractionEnd, ExponentEnd, Infinite;
      var integral := IntegralPart(ptr);
      if integral.Err? {
        return Failed(integral.code);
      }
      var fraction := FractionPart(integral.next);
      if fraction.Err? {
        return Failed(fraction.code);
      }
      var exponent := ExponentPart(fraction.next);
      if exponent.Err? {
        return Failed(exponent.code);
      }
      var tmp := exponent.next;
      var text := json[ptr..tmp];
      if fraction.value && exponent.value {
        if !Fits64(IntOf(text)) {
          return Failed(NUMBER_TOO_BIG);
        }
        r := Done(Int(Wrap32(IntOf(text))));
      } else {
        if Infinite(json, ptr, integral.next, fraction.next, tmp) {
          return Failed(NUMBER_TOO_BIG);
        }
        r := Done(Number(text));
      }
      ptr := tmp;
    }

    /** Four hexadecimal digits after position p. */
    method ParseHex4(p: nat) returns (ok: bool, q: nat, u: nat)
      requires Ended(json) && p < |json| && json[p] != '\0'
      ensures var h := Hex(json, p, 4, 0);
              ok == h.Ok? && (ok ==> q == h.next && u == h.value && q < |json| && json[q] != '\0')
      ensures !ok ==> Hex(json, p, 4, 0) == Err(INVALID_UNICODE_HEX)
    {
      hide OrDigit;
      q, u := p, 0;
      for i := 0 to 4
        invariant q == p + i && q < |json| && json[q] != '\0'
        invariant Hex(json, p, 4, 0) == Hex(json, q, 4 - i, u)
      {
        var d := HexValue(json[q + 1]);
        if d < 0 {
          return false, q, u;
        }
        q := q + 1;
        u := OrDigit(u * 16, d);
      }
      ok := true;
    }

    method PushChar(c: char)
      modifies this`strTop, this`stkStr
      ensures strTop == old(strTop) + 1 && stkStr == old(stkStr) + [c]
    {
      strTop := strTop + 1;
      stkStr := stkStr + [c];
    }

    /** Appends the bytes that a reader takes for the code point. */
    method PushUtf8(u: nat)
      modifies this`strTop, this`stkStr
      ensures strTop == old(strTop) + |EncodeUtf8(u)| && stkStr == old(stkStr) + EncodeUtf8(u)
      ensures u <= 0x10FFFF ==> Decode(stkStr[|old(stkStr)|..]) == CodePoint(u, |stkStr| - |old(stkStr)|)
    {
      hide Decode;
      if u <= 0x10FFFF {
        DecodeEncode(u, []);
        assert EncodeUtf8(u) + [] == EncodeUtf8(u) == (stkStr + EncodeUtf8(u))[|stkStr|..];
      }
      if u <= 0x7F {
        PushChar(Byte(u));
      } else if u <= 0x7FF {
        PushChar(Byte(0xC0 + (u / 64) % 64));
        PushChar(Byte(0x80 + u % 64));
      } else if u <= 0xFFFF {
        PushChar(Byte(0xE0 + (u / 4096) % 32));
        PushChar(Byte(0x80 + (u / 64) % 64));
        PushChar(Byte(0x80 + u % 64));
      } else {
        PushChar(Byte(0xF0 + (u / 262144) % 16));
        PushChar(Byte(0x80 + (u / 4096) % 64));
        PushChar(Byte(0x80 + (u / 64) % 64));
        PushChar(Byte(0x80 + u % 64));
      }
    }

    /** A code point escape, from its letter u on. */
    method ParseUnicode(p: nat) returns (r: Parsed<nat>)
      requires Ended(json) && p < |json| && json[p] != '\0'
      ensures r == Unicode(json, p)
      ensures forall e, u: nat :: EscapeAt(json, p, e, u) ==> r == Ok(u, p + |e| - 2)
      ensures r.Ok? ==> r.value <= 0x10FFFF
    {
      hide Hex, EscapeAt;
      EscapesRead(json, p);
      var ok, tmp, u := ParseHex4(p);
      if !ok {
        return Err(INVALID_UNICODE_HEX);
      }
      if 0xD800 <= u <= 0xDBFF {
        tmp := tmp + 1;
        if json[tmp] != '\\' {
          return Err(INVALID_UNICODE_SURROGATE);
        }
        tmp := tmp + 1;
        if json[tmp] != 'u' {
          return Err(INVALID_UNICODE_SURROGATE);
        }
        var ok2, tmp2, u2 := ParseHex4(tmp);
        if !ok2 {
          return Err(INVALID_UNICODE_HEX);
        }
        if u2 < 0xDC00 || u2 > 0xDFFF {
          return Err(INVALID_UNICODE_SURROGATE);
        }
        return Ok((u - 0xD800) * 1024 + (u2 - 0xDC00) + 0x10000, tmp2);
      }
      r := Ok(u, tmp);
    }

    /** One step of reading a string from position tmp: whether it ended, went on, or
        failed. */
    method ScanStep(tmp: nat) returns (next: nat, ended: bool, error: Parsed<char>)
      requires Ended(json) && tmp < |json| && json[tmp] != '\0' && strTop == |stkStr|
      modifies this`strTop, this`stkStr
      ensures strTop == |stkStr|
      ensures error.Err? ==> Scan(json, tmp, old(stkStr)) == Err(error.code, 0, strTop)
      ensures error.Ok? && ended ==>
                Scan(json, tmp, old(stkStr)) == Ok(stkStr, next) && stkStr == old(stkStr) && next < |json|
      ensures error.Ok? && !ended ==>
                && tmp < next < |json| && json[next] != '\0'
                && Scan(json, tmp, old(stkStr)) == Scan(json, next, stkStr)
    {
      hide Unicode, EncodeUtf8;
      next, ended, error := tmp + 1, false, Ok(' ', 0);
      var ch := json[next];
      if ch == '\"' {
        next, ended := next + 1, true;
      } else if ch == '\\' {
        next := next + 1;
        if json[next] == 'u' {
          var u := ParseUnicode(next);
          if u.Err? {
            return next, false, Err(u.code);
          }
          next := u.next;
          PushUtf8(u.value);
        } else {
          error := Unescaped(json[next]);
          if error.Ok? {
            PushChar(error.value);
          }
        }
      } else if ch == '\0' {
        strTop, stkStr := 0, [];
        error := Err(MISS_QUOTATION_MARK);
      } else if ch as int < 0x20 {
        strTop, stkStr := 0, [];
        error := Err(INVALID_STRING_CHAR);
      } else {
        PushChar(ch);
      }
    }

    method ParseString() returns (r: Result)
      requires Ready() && json[ptr] == '\"'
      modifies this
      ensures var s := Scan(json, old(ptr), []);
              Yields(r, ptr, strTop, if s.Err? then Err(s.code, old(ptr), s.left) else Ok(Str(s.value), s.next))
      ensures r.Done? ==> Ready() && r.value.Str?
    {
      hide Scan;
      var tmp, head := ptr, strTop;
      while true
        invariant ptr == old(ptr) && ptr <= tmp < |json| && json[tmp] != '\0'
        invariant Scan(json, ptr, []) == Scan(json, tmp, stkStr) && strTop == |stkStr|
        decreases |json| - tmp
      {
        var next, ended, error := ScanStep(tmp);
        if error.Err? {
          return Failed(error.code);
        }
        if ended {
          r := Done(Str(stkStr));
          ptr := next;
          strTop := head;
          stkStr := [];
          return;
        }
        tmp := next;
      }
    }

    /** An array, whose opening bracket is at the position. */
    method ParseArray() returns (r: Result)
      requires Ready() && json[ptr] == '['
      modifies this
      ensures Yields(r, ptr, strTop, JsonSpec.ParseValue(json, old(ptr))) && (r.Done? ==> Ready())
      decreases |json| - ptr, 0
    {
      hide ParseItems, JsonSpec.ParseValue, SkipSpace;
      ghost var start := ptr;
      ArrayOpens(json, ptr);
      ptr := ptr + 1;
      ParseWhitespace();
      if json[ptr] == ']' {
        ptr := ptr + 1;
        return Done(Arr([]));
      }
      ghost var goal := ParseItems(json, ptr, []);
      var arr := [];
      while true
        invariant Ready() && start < ptr && goal == ParseItems(json, ptr, arr)
        decreases |json| - ptr
      {
        ItemStep(json, ptr, arr);
        var e := ParseValue();
        if e.Failed? {
          return e;
        }
        arr := arr + [e.value];
        ParseWhitespace();
        if json[ptr] == ',' {
          ptr := ptr + 1;
          ParseWhitespace();
        } else if json[ptr] == ']' {
          ptr := ptr + 1;
          return Done(Arr(arr));
        } else {
          return Failed(MISS_COMMA_OR_SQUARE_BRACKET);
        }
      }
    }

    /** A member's key, and the colon after it. */
    method ParseKey() returns (r: Result)
      requires Ready()
      modifies this
      ensures r.Done? ==> Ready() && ptr > old(ptr)
      ensures json[old(ptr)] != '\"' ==> r == Failed(MISS_KEY) && ptr == old(ptr) && strTop == 0
      ensures json[old(ptr)] == '\"' ==>
              var key := Scan(json, old(ptr), []);
              if key.Err? then r == Failed(key.code) && ptr == old(ptr) && strTop == key.left
              else
                var q := SkipSpace(json, key.next);
                if json[q] != ':' then r == Failed(MISS_COLON) && ptr == q && strTop == 0
                else r == Done(Str(key.value)) && ptr == SkipSpace(json, q + 1)
      decreases |json| - ptr, 0
    {
      hide Scan, SkipSpace;
      if json[ptr] != '\"' {
        return Failed(MISS_KEY);
      }
      r := ParseString();
      if r.Failed? {
        return;
      }
      ParseWhitespace();
      if json[ptr] != ':' {
        return Failed(MISS_COLON);
      }
      ptr := ptr + 1;
      ParseWhitespace();
    }

    /** The next member of an object, up to the character after it. */
    method ParseMember(read: seq<Member>) returns (r: Result, mp: seq<Member>)
      requires Ready()
      modifies this
      ensures r.Failed? ==> Yields(r, ptr, strTop, ParseMembers(json, old(ptr), read))
      ensures r.Done? ==> Ready() && ptr > old(ptr) && AfterMember(json, ptr, ParseMembers(json, old(ptr), read), mp)
      decreases |json| - ptr, 1
    {
      hide ParseMembers, JsonSpec.ParseValue, SkipSpace, Scan, Insert;
      MemberStep(json, ptr, read);
      mp := read;
      r := ParseKey();
      if r.Failed? {
        return;
      }
      var e := ParseValue();
      if e.Failed? {
        return e, mp;
      }
      mp := Insert(mp, r.value.s, e.value);
      ParseWhitespace();
    }

    /** An object, whose opening brace is at the position. */
    method ParseObject() returns (r: Result)
      requires Ready() && json[ptr] == '{'
      modifies this
      ensures Yields(r, ptr, strTop, JsonSpec.ParseValue(json, old(ptr))) && (r.Done? ==> Ready())
      decreases |json| - ptr, 0
    {
      hide ParseMembers, JsonSpec.ParseValue, SkipSpace;
      ghost var start := ptr;
      ObjectOpens(json, ptr);
      ptr := ptr + 1;
      ParseWhitespace();
      if json[ptr] == '}' {
        ptr := ptr + 1;
        return Done(Obj([]));
      }
      ghost var goal := ParseMembers(json, ptr, []);
      var mp := [];
      while true
        invariant Ready() && start < ptr && goal == ParseMembers(json, ptr, mp)
        decreases |json| - ptr
      {
        r, mp := ParseMember(mp);
        if r.Failed? {
          return;
        }
        if json[ptr] == '}' {
          ptr := ptr + 1;
          return Done(Obj(mp));
        } else if json[ptr] == ',' {
          ptr := ptr + 1;
          ParseWhitespace();
        } else {
          return Failed(MISS_COMMA_OR_CURLY_BRACKET);
        }
      }
    }

    method ParseValue() returns (r: Result)
      requires Ready()
      modifies this
      ensures Yields(r, ptr, strTop, JsonSpec.ParseValue(json, old(ptr))) && (r.Done? ==> Ready() && ptr > old(ptr))
      decreases |json| - ptr, 1
    {
      hide ParseItems, ParseMembers, JsonSpec.ParseNumber, Scan, JsonSpec.ParseLiteral;
      match json[ptr] {
        case 't' => r := ParseLiteral("true", Bool(true));
        case 'f' => r := ParseLiteral("false", Bool(false));
        case 'n' => r := ParseLiteral("null", Null);
        case '\0' => r := Failed(EXPECT_VALUE);
        case '\"' => r := ParseString();
        case '[' => r := ParseArray();
        case '{' => r := ParseObject();
        case _ => r := ParseNumber();
      }
    }
  }

  lemma TextsExact(text: string)
    ensures var t := text + ['\0'];
            var r := JsonSpec.ParseValue(t, SkipSpace(t, 0));
            forall v :: r.Ok? && r.value == v <==> JsonGrammar.Spells(text, v)
  {
    hide JsonSpec.ParseValue, JsonGrammar.Spells;
    forall v
      ensures var t := text + ['\0'];
              var r := JsonSpec.ParseValue(t, SkipSpace(t, 0));
              r.Ok? && r.value == v <==> JsonGrammar.Spells(text, v)
    {
      JsonGrammar.TextExact(text, v);
    }
  }

  /** Parses a whole text. What follows a value is not looked at. A failure keeps its code
      only when the parser stands at the end of the text. Clean says whether the stack of
      characters is empty at the end, as the source asserts. */
  method ParseText(text: string) returns (r: Result, clean: bool)
    ensures var t := text + ['\0'];
            match JsonSpec.ParseValue(t, SkipSpace(t, 0))
            case Ok(value, next) => r == Done(value) && clean
            case Err(code, at, left) =>
              && r == Failed(if SkipSpace(t, at) == |t| - 1 then code else ROOT_NOT_SINGULAR)
              && (clean <==> left == 0)
    ensures forall v :: r == Done(v) <==> JsonGrammar.Spells(text, v)
  {
    hide JsonSpec.ParseValue, JsonGrammar.Spells;
    TextsExact(text);
    var c := new Context(text);
    c.ParseWhitespace();
    r := c.ParseValue();
    if r.Failed? {
      c.ParseWhitespace();
      if c.ptr != |c.json| - 1 {
        r := Failed(ROOT_NOT_SINGULAR);
      }
    }
    clean := c.strTop == 0;
  }
}

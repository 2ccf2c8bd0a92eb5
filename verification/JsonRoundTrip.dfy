// Printing and parsing again gives the value back, and inside a longer text parsing stops
// exactly where the printed value ends.

module JsonRoundTrip {
  import opened Arith
  import opened JsonSpec

  /** s stands in t at position p. */
  ghost predicate At(t: string, p: nat, s: string) {
    p + |s| <= |t| && t[p..p + |s|] == s
  }

  lemma AtSplit(t: string, p: nat, a: string, b: string)
    requires At(t, p, a + b)
    ensures At(t, p, a) && At(t, p + |a|, b)
  {
    assert t[p..p + |a|] == t[p..p + |a + b|][..|a|];
    assert t[p + |a|..p + |a| + |b|] == t[p..p + |a + b|][|a|..];
  }

  lemma AtChar(t: string, p: nat, s: string, i: nat)
    requires At(t, p, s) && i < |s|
    ensures p + i < |t| && t[p + i] == s[i]
  {
    assert t[p..p + |s|][i] == s[i];
  }

  // Strings.

  predicate Ascii(s: string) {
    forall i :: 0 <= i < |s| ==> s[i] as int < 0x80
  }

  lemma HexDigitValue(d: nat)
    requires d < 16
    ensures HexValue(HexDigit(d)) == d && HexDigit(d) != '\0'
  {
  }

  /** The four digits of a control character. */
  lemma HexControl(t: string, p: nat, c: char)
    requires p < |t| && Ended(t) && t[p] != '\0' && c as int < 0x20
    requires At(t, p + 1, "00" + [HexDigit(c as int / 16), HexDigit(c as int % 16)])
    ensures Hex(t, p, 4, 0) == Ok(c as int, p + 4) && t[p + 4] != '\0'
  {
    var a, b := c as int / 16, c as int % 16;
    var s := "00" + [HexDigit(a), HexDigit(b)];
    AtChar(t, p + 1, s, 0);
    AtChar(t, p + 1, s, 1);
    AtChar(t, p + 1, s, 2);
    AtChar(t, p + 1, s, 3);
    HexDigitValue(a);
    HexDigitValue(b);
    assert Hex(t, p + 4, 0, c as int) == Ok(c as int, p + 4);
    assert Hex(t, p + 3, 1, a) == Hex(t, p + 4, 0, c as int);
    assert Hex(t, p + 2, 2, 0) == Hex(t, p + 3, 1, a);
    assert Hex(t, p + 1, 3, 0) == Hex(t, p + 2, 2, 0);
  }

  lemma ScanControl(t: string, p: nat, c: char, read: string)
    requires p < |t| && Ended(t) && t[p] != '\0' && c as int < 0x20 && |PrintChar(c)| == 6
    requires At(t, p + 1, PrintChar(c))
    ensures p + 6 < |t| && t[p + 6] != '\0' && Scan(t, p, read) == Scan(t, p + 6, read + [c])
  {
    hide Hex, HexDigit, Unescaped;
    var s := PrintChar(c);
    var digits := "00" + [HexDigit(c as int / 16), HexDigit(c as int % 16)];
    assert s == "\\u" + digits;
    AtChar(t, p + 1, s, 0);
    AtChar(t, p + 1, s, 1);
    AtSplit(t, p + 1, "\\u", digits);
    HexControl(t, p + 2, c);
  }

  lemma ScanEscaped(t: string, p: nat, c: char, read: string)
    requires p < |t| && Ended(t) && t[p] != '\0' && |PrintChar(c)| == 2
    requires At(t, p + 1, PrintChar(c))
    ensures p + 2 < |t| && t[p + 2] != '\0' && Scan(t, p, read) == Scan(t, p + 2, read + [c])
  {
    hide Unicode, EncodeUtf8;
    AtChar(t, p + 1, PrintChar(c), 0);
    AtChar(t, p + 1, PrintChar(c), 1);
  }

  lemma ScanPlain(t: string, p: nat, c: char, read: string)
    requires p < |t| && Ended(t) && t[p] != '\0' && |PrintChar(c)| == 1
    requires At(t, p + 1, PrintChar(c))
    ensures p + 1 < |t| && t[p + 1] != '\0' && Scan(t, p, read) == Scan(t, p + 1, read + [c])
  {
    hide Unicode, EncodeUtf8, Unescaped;
    AtChar(t, p + 1, PrintChar(c), 0);
  }

  /** Each printed character is read back as itself. */
  lemma ScanChar(t: string, p: nat, c: char, read: string)
    requires p < |t| && Ended(t) && t[p] != '\0' && c as int < 0x80
    requires At(t, p + 1, PrintChar(c))
    ensures p + |PrintChar(c)| < |t| && t[p + |PrintChar(c)|] != '\0'
    ensures Scan(t, p, read) == Scan(t, p + |PrintChar(c)|, read + [c])
  {
    hide Scan;
    if |PrintChar(c)| == 1 {
      ScanPlain(t, p, c, read);
    } else if |PrintChar(c)| == 2 {
      ScanEscaped(t, p, c, read);
    } else {
      ScanControl(t, p, c, read);
    }
  }

  lemma ScanEnd(t: string, p: nat, read: string)
    requires p < |t| && Ended(t) && t[p] != '\0' && t[p + 1] == '\"'
    ensures Scan(t, p, read) == Ok(read, p + 2)
  {
  }

  lemma {:induction false} ScanChars(t: string, p: nat, s: string, read: string)
    requires p < |t| && Ended(t) && t[p] != '\0' && Ascii(s)
    requires At(t, p + 1, PrintChars(s) + "\"")
    ensures Scan(t, p, read) == Ok(read + s, p + 1 + |PrintChars(s)| + 1)
    decreases |s|
  {
    hide PrintChar, Scan;
    if s == [] {
      AtChar(t, p + 1, PrintChars(s) + "\"", 0);
      ScanEnd(t, p, read);
      assert read + s == read;
    } else {
      var c, rest := s[0], PrintChars(s[1..]) + "\"";
      assert PrintChars(s) + "\"" == PrintChar(c) + rest;
      AtSplit(t, p + 1, PrintChar(c), rest);
      ScanChar(t, p, c, read);
      ScanChars(t, p + |PrintChar(c)|, s[1..], read + [c]);
      assert read + [c] + s[1..] == read + s;
    }
  }

  /** A key that can be printed as it is. */
  predicate PlainKey(s: string) {
    forall i :: 0 <= i < |s| ==> s[i] as int >= 0x20 && s[i] != '\"' && s[i] != '\\'
  }

  lemma {:induction false} ScanKey(t: string, p: nat, s: string, read: string)
    requires p < |t| && Ended(t) && t[p] != '\0' && PlainKey(s)
    requires At(t, p + 1, s + "\"")
    ensures Scan(t, p, read) == Ok(read + s, p + 1 + |s| + 1)
    decreases |s|
  {
    AtChar(t, p + 1, s + "\"", 0);
    if s == [] {
      assert read + s == read;
    } else {
      assert s + "\"" == [s[0]] + (s[1..] + "\"");
      AtSplit(t, p + 1, [s[0]], s[1..] + "\"");
      ScanKey(t, p + 1, s[1..], read + [s[0]]);
      assert read + [s[0]] + s[1..] == read + s;
    }
  }

  lemma UnicodeLength(t: string, p: nat)
    requires p < |t| && Ended(t) && t[p] != '\0' && Unicode(t, p).Ok?
    ensures Unicode(t, p).next >= p + 4 && |EncodeUtf8(Unicode(t, p).value)| <= 4
  {
    hide Hex;
  }

  /** A string that is read is never longer than its text, and as long only when nothing
      in the text is escaped. */
  lemma {:induction false} ScanLength(t: string, p: nat, read: string)
    requires p < |t| && Ended(t) && t[p] != '\0' && Scan(t, p, read).Ok?
    ensures var r := Scan(t, p, read);
            && |r.value| - |read| <= r.next - p - 2
            && (|r.value| - |read| == r.next - p - 2 ==> PlainKey(t[p + 1..r.next - 1]))
    decreases |t| - p
  {
    hide Unicode, EncodeUtf8;
    var c := t[p + 1];
    if c == '\"' {
    } else if c == '\\' && t[p + 2] == 'u' {
      var u := Unicode(t, p + 2);
      UnicodeLength(t, p + 2);
      ScanLength(t, u.next, read + EncodeUtf8(u.value));
    } else if c == '\\' {
      ScanLength(t, p + 2, read + [Unescaped(t[p + 2]).value]);
    } else {
      var next := Scan(t, p, read).next;
      ScanLength(t, p + 1, read + [c]);
      assert t[p + 1..next - 1] == [c] + t[p + 2..next - 1];
    }
  }

  /** Keys are printed without escapes, so a key is read back up to its own closing quote
      exactly when it has nothing to escape. */
  lemma KeyReadsBack(t: string, p: nat, s: string)
    requires p < |t| && Ended(t) && t[p] != '\0' && At(t, p + 1, s + "\"")
    ensures Scan(t, p, []) == Ok(s, p + 1 + |s| + 1) <==> PlainKey(s)
  {
    hide Scan;
    if PlainKey(s) {
      ScanKey(t, p, s, []);
      assert [] + s == s;
    }
    if Scan(t, p, []) == Ok(s, p + 1 + |s| + 1) {
      ScanLength(t, p, []);
      AtSplit(t, p + 1, s, "\"");
    }
  }

  // Integers.

  lemma {:induction false} DigitsFacts(n: nat)
    ensures forall i :: 0 <= i < |Digits(n)| ==> IsDigit(Digits(n)[i])
    ensures NatOf(Digits(n)) == n
    ensures n > 0 ==> Digits(n)[0] != '0'
    ensures n == 0 ==> Digits(n) == "0"
  {
    var last := ['0' + (n % 10) as char];
    if n >= 10 {
      DigitsFacts(n / 10);
      assert Digits(n)[..|Digits(n)| - 1] == Digits(n / 10);
    } else {
      assert last[..0] == [];
    }
  }

  lemma {:induction false} DigitsEndAt(t: string, p: nat, q: nat)
    requires p <= q < |t| && Ended(t) && !IsDigit(t[q]) && forall i :: p <= i < q ==> IsDigit(t[i])
    ensures DigitsEnd(t, p) == q
    decreases q - p
  {
    if p < q {
      DigitsEndAt(t, p + 1, q);
    }
  }

  /** What may follow a printed integer. */
  predicate Delimiter(c: char) {
    !IsDigit(c) && c != '.' && c != 'e' && c != 'E'
  }

  lemma ParseNatural(t: string, q: nat, n: nat)
    requires q + |Digits(n)| < |t| && Ended(t) && At(t, q, Digits(n)) && Delimiter(t[q + |Digits(n)|])
    ensures if t[q] == '0' then |Digits(n)| == 1 else '1' <= t[q] <= '9' && DigitsEnd(t, q + 1) == q + |Digits(n)|
  {
    var s := Digits(n);
    DigitsFacts(n);
    forall i | q <= i < q + |s|
      ensures IsDigit(t[i])
    {
      AtChar(t, q, s, i - q);
    }
    AtChar(t, q, s, 0);
    DigitsEndAt(t, q + 1, q + |s|);
  }

  lemma ParseInt(t: string, p: nat, i: int)
    requires -0x8000_0000 <= i < 0x8000_0000 && Ended(t)
    requires At(t, p, PrintInt(i)) && p + |PrintInt(i)| < |t| && Delimiter(t[p + |PrintInt(i)|])
    ensures ParseNumber(t, p) == Ok(Int(i), p + |PrintInt(i)|)
    ensures t[p] == '-' || IsDigit(t[p])
  {
    hide DigitsEnd, Digits, NatOf;
    var s, n := PrintInt(i), if i < 0 then -i else i;
    var q := if i < 0 then p + 1 else p;
    DigitsFacts(n);
    AtChar(t, p, s, 0);
    if i < 0 {
      AtSplit(t, p, "-", Digits(n));
      assert s[1..] == Digits(n);
    }
    ParseNatural(t, q, n);
    var end := p + |s|;
    assert IntegralEnd(t, p) == Ok(true, end);
    assert t[p..end] == s;
    assert IntOf(s) == i;
    WrapSmall(i);
  }

  lemma WrapSmall(i: int)
    requires -0x8000_0000 <= i < 0x8000_0000
    ensures Wrap32(i) == i && Fits64(i)
  {
  }

  // Values.

  ghost predicate Sorted(members: seq<Member>) {
    forall i, j :: 0 <= i < j < |members| ==> KeyLess(members[i].key, members[j].key)
  }

  /** The values that survive: no doubles, 32-bit integers, ASCII strings, and objects whose
      keys need no escape. */
  ghost predicate Good(v: Json) {
    match v
    case Null => true
    case Bool(b) => true
    case Int(i) => -0x8000_0000 <= i < 0x8000_0000
    case Number(text) => false
    case Str(s) => Ascii(s)
    case Arr(items) => forall i :: 0 <= i < |items| ==> Good(items[i])
    case Obj(members) =>
      Sorted(members) && forall i :: 0 <= i < |members| ==> PlainKey(members[i].key) && Good(members[i].value)
  }

  lemma {:induction false} KeyLessStrict(a: string, b: string)
    ensures KeyLess(a, b) ==> a != b && !KeyLess(b, a)
    decreases |a|
  {
    if a != [] && b != [] {
      KeyLessStrict(a[1..], b[1..]);
      assert a == [a[0]] + a[1..] && b == [b[0]] + b[1..];
    }
  }

  /** A key above all others is added at the end. */
  lemma {:induction false} InsertLast(members: seq<Member>, key: string, value: Json)
    requires forall i :: 0 <= i < |members| ==> KeyLess(members[i].key, key)
    ensures Insert(members, key, value) == members + [Member(key, value)]
    decreases |members|
  {
    if members != [] {
      KeyLessStrict(members[0].key, key);
      InsertLast(members[1..], key, value);
    }
  }

  /** A printed value starts with what tells its kind. */
  lemma FirstChar(v: Json)
    requires Good(v)
    ensures |Print(v)| > 0 && !IsSpace(Print(v)[0]) && Print(v)[0] != ']' && Print(v)[0] != '\0'
  {
    if v.Int? {
      DigitsFacts(if v.i < 0 then -v.i else v.i);
    }
  }

  lemma NoSpace(t: string, p: nat)
    requires p < |t| && Ended(t) && !IsSpace(t[p])
    ensures SkipSpace(t, p) == p
  {
  }

  lemma ParsePrintString(r: string, t: string, p: nat)
    requires Good(Str(r)) && Ended(t) && At(t, p, PrintString(r)) && p + |PrintString(r)| < |t|
    ensures ParseValue(t, p) == Ok(Str(r), p + |PrintString(r)|)
  {
    hide ParseNumber, Scan, PrintChars, ParseItems, ParseMembers, ParseLiteral, SkipSpace;
    assert PrintString(r) == "\"" + (PrintChars(r) + "\"");
    AtChar(t, p, PrintString(r), 0);
    AtSplit(t, p, "\"", PrintChars(r) + "\"");
    ScanChars(t, p, r, []);
    assert [] + r == r;
  }

  lemma {:induction false} ParsePrint(v: Json, t: string, p: nat)
    requires Good(v) && Ended(t) && At(t, p, Print(v)) && p + |Print(v)| < |t|
    requires v.Int? ==> Delimiter(t[p + |Print(v)|])
    ensures ParseValue(t, p) == Ok(v, p + |Print(v)|)
    decreases v, 1
  {
    hide ParseNumber, Scan, PrintChars, SkipSpace, Insert, PrintInt, ParseItems, ParseMembers, PrintItems;
    hide PrintMembers, IsSpace;
    var s := Print(v);
    FirstChar(v);
    AtChar(t, p, s, 0);
    match v {
      case Null =>
      case Bool(b) =>
      case Int(i) =>
        ParseInt(t, p, i);
      case Str(r) =>
        ParsePrintString(r, t, p);
      case Arr(items) =>
        assert s == "[" + (PrintItems(items) + "]");
        AtSplit(t, p, "[", PrintItems(items) + "]");
        ParsePrintArray(items, t, p);
      case Obj(members) =>
        assert s == "{" + (PrintMembers(members) + "}");
        AtSplit(t, p, "{", PrintMembers(members) + "}");
        ParsePrintObject(members, t, p);
    }
  }

  lemma {:induction false} ParsePrintArray(items: seq<Json>, t: string, p: nat)
    requires (forall i :: 0 <= i < |items| ==> Good(items[i])) && p < |t| && Ended(t) && t[p] == '['
    requires At(t, p + 1, PrintItems(items) + "]") && p + 1 + |PrintItems(items)| + 1 < |t|
    ensures ParseValue(t, p) == Ok(Arr(items), p + 1 + |PrintItems(items)| + 1)
    decreases items, 1
  {
    hide Scan, ParseNumber, SkipSpace, Print;
    var s := PrintItems(items) + "]";
    if items == [] {
      AtChar(t, p + 1, s, 0);
      NoSpace(t, p + 1);
    } else {
      FirstItem(items);
      AtChar(t, p + 1, s, 0);
      NoSpace(t, p + 1);
      ParsePrintItems(items, t, p + 1, []);
      assert [] + items == items;
    }
  }

  lemma FirstItem(items: seq<Json>)
    requires items != [] && Good(items[0])
    ensures |PrintItems(items)| > 0 && PrintItems(items)[0] == Print(items[0])[0]
    ensures var c := PrintItems(items)[0]; !IsSpace(c) && c != ']'
  {
    FirstChar(items[0]);
  }

  lemma {:induction false} ParsePrintItems(items: seq<Json>, t: string, p: nat, read: seq<Json>)
    requires items != [] && (forall i :: 0 <= i < |items| ==> Good(items[i])) && Ended(t)
    requires At(t, p, PrintItems(items) + "]") && p + |PrintItems(items)| + 1 < |t|
    ensures ParseItems(t, p, read) == Ok(Arr(read + items), p + |PrintItems(items)| + 1)
    decreases items, 0
  {
    hide ParseValue, ParseItems, SkipSpace, Print, PrintItems, At;
    ItemsSplit(items, t, p);
    var q := p + |Print(items[0])|;
    ParsePrint(items[0], t, p);
    NextItem(t, p, read, items[0], q);
    if |items| == 1 {
      assert items == [items[0]];
    } else {
      ParsePrintItems(items[1..], t, q + 1, read + [items[0]]);
      assert read + [items[0]] + items[1..] == read + items;
    }
  }

  lemma ItemsPrint(items: seq<Json>)
    requires items != []
    ensures PrintItems(items) == if |items| == 1 then Print(items[0])
                                 else Print(items[0]) + "," + PrintItems(items[1..])
  {
    hide Print;
  }

  /** What stands after a printed item. */
  lemma ItemsSplit(items: seq<Json>, t: string, p: nat)
    requires items != [] && (forall i :: 0 <= i < |items| ==> Good(items[i]))
    requires At(t, p, PrintItems(items) + "]") && p + |PrintItems(items)| + 1 < |t|
    ensures var q := p + |Print(items[0])|;
            && At(t, p, Print(items[0])) && q + 1 < |t|
            && (|items| == 1 ==> t[q] == ']' && PrintItems(items) == Print(items[0]))
            && (|items| > 1 ==> t[q] == ',' && !IsSpace(t[q + 1]) && At(t, q + 1, PrintItems(items[1..]) + "]")
                                && |PrintItems(items)| == |Print(items[0])| + 1 + |PrintItems(items[1..])|)
  {
    hide Print, At, Good, PrintItems, IsSpace;
    ItemsPrint(items);
    var q := p + |Print(items[0])|;
    if |items| == 1 {
      AtSplit(t, p, Print(items[0]), "]");
      AtChar(t, q, "]", 0);
    } else {
      var rest := PrintItems(items[1..]) + "]";
      assert PrintItems(items) + "]" == Print(items[0]) + ("," + rest);
      AtSplit(t, p, Print(items[0]), "," + rest);
      AtSplit(t, q, ",", rest);
      AtChar(t, q, ",", 0);
      assert items[1..][0] == items[1];
      FirstItem(items[1..]);
      AtChar(t, q + 1, rest, 0);
    }
  }

  /** What the parser does after an item. */
  lemma NextItem(t: string, p: nat, read: seq<Json>, item: Json, q: nat)
    requires p < |t| && Ended(t) && ParseValue(t, p) == Ok(item, q) && q + 1 < |t|
    ensures t[q] == ']' ==> ParseItems(t, p, read) == Ok(Arr(read + [item]), q + 1)
    ensures t[q] == ',' && !IsSpace(t[q + 1]) ==> ParseItems(t, p, read) == ParseItems(t, q + 1, read + [item])
  {
    hide ParseValue;
    if t[q] == ']' || t[q] == ',' {
      NoSpace(t, q);
    }
    if !IsSpace(t[q + 1]) {
      NoSpace(t, q + 1);
    }
  }

  lemma {:induction false} ParsePrintObject(members: seq<Member>, t: string, p: nat)
    requires Sorted(members) && (forall i :: 0 <= i < |members| ==> PlainKey(members[i].key) && Good(members[i].value))
    requires p < |t| && Ended(t) && t[p] == '{'
    requires At(t, p + 1, PrintMembers(members) + "}") && p + 1 + |PrintMembers(members)| + 1 < |t|
    ensures ParseValue(t, p) == Ok(Obj(members), p + 1 + |PrintMembers(members)| + 1)
    decreases members, 1
  {
    hide Scan, ParseNumber, SkipSpace, Print, Insert, ParseMembers, PlainKey, Good, Sorted;
    var s := PrintMembers(members) + "}";
    AtChar(t, p + 1, s, 0);
    NoSpace(t, p + 1);
    if members != [] {
      assert [] + members == members;
      ParsePrintMembers(members, t, p + 1, []);
    }
  }

  lemma {:induction false} ParsePrintMembers(members: seq<Member>, t: string, p: nat, read: seq<Member>)
    requires members != [] && Sorted(read + members) && Ended(t)
    requires forall i :: 0 <= i < |members| ==> PlainKey(members[i].key) && Good(members[i].value)
    requires At(t, p, PrintMembers(members) + "}") && p + |PrintMembers(members)| + 1 < |t|
    ensures ParseMembers(t, p, read) == Ok(Obj(read + members), p + |PrintMembers(members)| + 1)
    decreases members, 0
  {
    hide ParseValue, ParseMembers, Scan, SkipSpace, Print, Insert, KeyLess, PrintMember, PrintMembers, At, PlainKey;
    MembersSplit(members, t, p);
    var m, q := members[0], p + |PrintMember(members[0])|;
    var k := MemberParts(m, t, p);
    ParsePrint(m.value, t, k + 1);
    NextKey(read, members);
    InsertLast(read, m.key, m.value);
    NextMember(t, p, read, m, k, q);
    if |members| == 1 {
      assert members == [m];
    } else {
      assert read + [m] + members[1..] == read + members;
      ParsePrintMembers(members[1..], t, q + 1, read + [m]);
    }
  }

  lemma MembersSplit(members: seq<Member>, t: string, p: nat)
    requires members != [] && At(t, p, PrintMembers(members) + "}") && p + |PrintMembers(members)| + 1 < |t|
    ensures var q := p + |PrintMember(members[0])|;
            && At(t, p, PrintMember(members[0])) && q + 1 < |t| && (t[q] == '}' || t[q] == ',')
            && (|members| == 1 ==> t[q] == '}' && PrintMembers(members) == PrintMember(members[0]))
            && (|members| > 1 ==> t[q] == ',' && !IsSpace(t[q + 1]) && At(t, q + 1, PrintMembers(members[1..]) + "}")
                                  && |PrintMembers(members)|
                                    == |PrintMember(members[0])| + 1 + |PrintMembers(members[1..])|)
  {
    hide PrintMember, At;
    var q := p + |PrintMember(members[0])|;
    if |members| == 1 {
      AtSplit(t, p, PrintMember(members[0]), "}");
      AtChar(t, q, "}", 0);
    } else {
      var rest := PrintMembers(members[1..]) + "}";
      assert PrintMembers(members) + "}" == PrintMember(members[0]) + ("," + rest);
      AtSplit(t, p, PrintMember(members[0]), "," + rest);
      AtSplit(t, q, ",", rest);
      AtChar(t, q, ",", 0);
      FirstMember(members[1..]);
      AtChar(t, q + 1, rest, 0);
    }
  }

  /** What the parser does after a member. */
  lemma NextMember(t: string, p: nat, read: seq<Member>, m: Member, k: nat, q: nat)
    requires p < |t| && Ended(t) && t[p] == '\"' && Scan(t, p, []) == Ok(m.key, k)
    requires k + 1 < |t| && t[k] == ':' && SkipSpace(t, k) == k && SkipSpace(t, k + 1) == k + 1
    requires ParseValue(t, k + 1) == Ok(m.value, q) && q + 1 < |t|
    requires Insert(read, m.key, m.value) == read + [m]
    ensures t[q] == '}' ==> ParseMembers(t, p, read) == Ok(Obj(read + [m]), q + 1)
    ensures t[q] == ',' && !IsSpace(t[q + 1]) ==> ParseMembers(t, p, read) == ParseMembers(t, q + 1, read + [m])
  {
    hide ParseValue, Scan, Insert, SkipSpace;
    if t[q] == '}' || t[q] == ',' {
      NoSpace(t, q);
    }
    if !IsSpace(t[q + 1]) {
      NoSpace(t, q + 1);
    }
  }

  lemma FirstMember(members: seq<Member>)
    requires members != []
    ensures |PrintMembers(members)| > 0 && PrintMembers(members)[0] == '\"'
  {
  }

  lemma NextKey(read: seq<Member>, members: seq<Member>)
    requires members != [] && Sorted(read + members)
    ensures forall i :: 0 <= i < |read| ==> KeyLess(read[i].key, members[0].key)
  {
    forall i | 0 <= i < |read|
      ensures KeyLess(read[i].key, members[0].key)
    {
      assert KeyLess((read + members)[i].key, (read + members)[|read|].key);
    }
  }

  /** A printed member up to its colon, whose position is returned. */
  lemma MemberParts(m: Member, t: string, p: nat) returns (k: nat)
    requires Ended(t) && PlainKey(m.key) && Good(m.value) && At(t, p, PrintMember(m)) && p + |PrintMember(m)| < |t|
    ensures p < |t| && t[p] == '\"' && Scan(t, p, []) == Ok(m.key, k)
    ensures k + 1 < |t| && t[k] == ':' && SkipSpace(t, k) == k && SkipSpace(t, k + 1) == k + 1
    ensures At(t, k + 1, Print(m.value)) && k + 1 + |Print(m.value)| == p + |PrintMember(m)|
  {
    hide Scan, SkipSpace, Print, At;
    var tail := ":" + Print(m.value);
    assert PrintMember(m) == "\"" + ((m.key + "\"") + tail);
    AtSplit(t, p, "\"", (m.key + "\"") + tail);
    AtChar(t, p, "\"", 0);
    AtSplit(t, p + 1, m.key + "\"", tail);
    ScanKey(t, p, m.key, []);
    assert [] + m.key == m.key;
    k := p + 1 + |m.key| + 1;
    AtSplit(t, k, ":", Print(m.value));
    AtChar(t, k, ":", 0);
    NoSpace(t, k);
    FirstChar(m.value);
    AtChar(t, k + 1, Print(m.value), 0);
    NoSpace(t, k + 1);
  }

  /** What is printed is parsed back. */
  lemma RoundTrip(v: Json)
    requires Good(v)
    ensures ParseValue(Print(v) + "\0", SkipSpace(Print(v) + "\0", 0)) == Ok(v, |Print(v)|)
  {
    var t := Print(v) + "\0";
    FirstChar(v);
    NoSpace(t, 0);
    assert t[0..|Print(v)|] == Print(v);
    ParsePrint(v, t, 0);
  }

  // Every object the parser builds is a sorted map: a key read again is ignored.

  lemma {:induction false} KeyLessTotal(a: string, b: string)
    ensures KeyLess(a, b) || KeyLess(b, a) || a == b
    decreases |a|
  {
    if a != [] && b != [] {
      KeyLessTotal(a[1..], b[1..]);
      assert a == [a[0]] + a[1..] && b == [b[0]] + b[1..];
    }
  }

  lemma {:induction false} KeyLessTransitive(a: string, b: string, c: string)
    requires KeyLess(a, b) && KeyLess(b, c)
    ensures KeyLess(a, c)
    decreases |a|
  {
    if a != [] && a[0] == b[0] && b[0] == c[0] {
      KeyLessTransitive(a[1..], b[1..], c[1..]);
    }
  }

  /** Adding a member keeps the order and the other members, and an earlier value of the
      key. */
  lemma {:induction false} InsertSorted(members: seq<Member>, key: string, value: Json)
    requires Sorted(members)
    ensures Sorted(Insert(members, key, value))
    ensures forall m :: m in Insert(members, key, value) <==>
              m in members || (m == Member(key, value) && forall x :: x in members ==> x.key != key)
    decreases |members|
  {
    if members != [] {
      var m, rest := members[0], members[1..];
      assert members == [m] + rest;
      assert forall i :: 0 <= i < |rest| ==> rest[i] == members[i + 1];
      KeyLessTotal(m.key, key);
      KeyLessStrict(m.key, key);
      if m.key == key {
      } else if KeyLess(key, m.key) {
        InsertFirst(members, key, value);
      } else {
        InsertSorted(rest, key, value);
        ConsSorted(m, Insert(rest, key, value), rest, key, value);
      }
    }
  }

  lemma InsertFirst(members: seq<Member>, key: string, value: Json)
    requires members != [] && Sorted(members) && KeyLess(key, members[0].key)
    ensures Sorted([Member(key, value)] + members)
    ensures forall x :: x in members ==> x.key != key
  {
    forall i | 0 <= i < |members|
      ensures KeyLess(key, members[i].key)
    {
      if i > 0 {
        KeyLessTransitive(key, members[0].key, members[i].key);
      }
    }
    forall x | x in members
      ensures x.key != key
    {
      KeyLessStrict(key, x.key);
    }
  }

  lemma ConsSorted(m: Member, inserted: seq<Member>, rest: seq<Member>, key: string, value: Json)
    requires Sorted(inserted) && Sorted([m] + rest) && KeyLess(m.key, key) && m.key != key
    requires forall x :: x in inserted ==> x in rest || x == Member(key, value)
    ensures Sorted([m] + inserted)
  {
    forall i | 0 <= i < |inserted|
      ensures KeyLess(m.key, inserted[i].key)
    {
      var x := inserted[i];
      if x in rest {
        var j :| 0 <= j < |rest| && rest[j] == x;
        assert KeyLess(([m] + rest)[0].key, ([m] + rest)[j + 1].key);
      }
    }
  }

  /** Objects are sorted all the way down. */
  ghost predicate WellFormed(v: Json) {
    match v
    case Arr(items) => forall i :: 0 <= i < |items| ==> WellFormed(items[i])
    case Obj(members) => Sorted(members) && forall i :: 0 <= i < |members| ==> WellFormed(members[i].value)
    case _ => true
  }

  lemma {:induction false} ParsedWellFormed(t: string, p: nat)
    requires p < |t| && Ended(t)
    ensures ParseValue(t, p).Ok? ==> WellFormed(ParseValue(t, p).value)
    decreases |t| - p, 1
  {
    hide Scan, ParseNumber, SkipSpace;
    if t[p] == '[' {
      var q := SkipSpace(t, p + 1);
      if t[q] != ']' {
        ItemsWellFormed(t, q, []);
      }
    } else if t[p] == '{' {
      var q := SkipSpace(t, p + 1);
      if t[q] != '}' {
        MembersWellFormed(t, q, []);
      }
    } else {
      NumberIsFlat(t, p);
    }
  }

  lemma NumberIsFlat(t: string, p: nat)
    requires p < |t| && Ended(t)
    ensures ParseNumber(t, p).Ok? ==> ParseNumber(t, p).value.Int? || ParseNumber(t, p).value.Number?
  {
  }

  lemma {:induction false} ItemsWellFormed(t: string, p: nat, read: seq<Json>)
    requires p < |t| && Ended(t) && forall i :: 0 <= i < |read| ==> WellFormed(read[i])
    ensures ParseItems(t, p, read).Ok? ==> WellFormed(ParseItems(t, p, read).value)
    decreases |t| - p, 2
  {
    hide ParseValue, SkipSpace;
    ParsedWellFormed(t, p);
    var item := ParseValue(t, p);
    if item.Ok? {
      var q := SkipSpace(t, item.next);
      if t[q] == ',' {
        ItemsWellFormed(t, SkipSpace(t, q + 1), read + [item.value]);
      }
    }
  }

  lemma {:induction false} MembersWellFormed(t: string, p: nat, read: seq<Member>)
    requires p < |t| && Ended(t) && Sorted(read) && forall i :: 0 <= i < |read| ==> WellFormed(read[i].value)
    ensures ParseMembers(t, p, read).Ok? ==> WellFormed(ParseMembers(t, p, read).value)
    decreases |t| - p, 2
  {
    hide ParseValue, SkipSpace, Scan, Insert;
    if t[p] == '\"' {
      var key := Scan(t, p, []);
      if key.Ok? {
        var q := SkipSpace(t, key.next);
        if t[q] == ':' {
          var v := SkipSpace(t, q + 1);
          ParsedWellFormed(t, v);
          var value := ParseValue(t, v);
          if value.Ok? {
            var members := Insert(read, key.value, value.value);
            InsertSorted(read, key.value, value.value);
            AllWellFormed(read, members, value.value);
            var e := SkipSpace(t, value.next);
            if t[e] == ',' {
              MembersWellFormed(t, SkipSpace(t, e + 1), members);
            }
          }
        }
      }
    }
  }

  lemma AllWellFormed(read: seq<Member>, members: seq<Member>, value: Json)
    requires (forall i :: 0 <= i < |read| ==> WellFormed(read[i].value)) && WellFormed(value)
    requires forall m :: m in members ==> m in read || m.value == value
    ensures forall i :: 0 <= i < |members| ==> WellFormed(members[i].value)
  {
    forall i | 0 <= i < |members|
      ensures WellFormed(members[i].value)
    {
      assert members[i] in members;
    }
  }
}

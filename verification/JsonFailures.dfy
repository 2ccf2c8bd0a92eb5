// Texts that cannot be read: what a string that breaks off leaves on the stack of
// characters, and a key that is printed but not read back.

module JsonFailures {
  import opened JsonSpec
  import opened JsonRoundTrip

  /** The next character of a string, or escape, as the characters it stands for; p is in
      front of it. */
  function Element(t: string, p: nat): (r: Parsed<string>)
    requires p < |t| && Ended(t) && t[p] != '\0' && t[p + 1] != '\"'
    ensures r.Ok? ==> p < r.next < |t| && t[r.next] != '\0' && r.value != []
  {
    var c := t[p + 1];
    if c == '\\' then
      if t[p + 2] == 'u' then
        var u := Unicode(t, p + 2);
        if u.Err? then Err(u.code) else Ok(EncodeUtf8(u.value), u.next)
      else
        var e := Unescaped(t[p + 2]);
        if e.Err? then Err(e.code) else Ok([e.value], p + 2)
    else if c as int < 0x20 then Err(if c == '\0' then MISS_QUOTATION_MARK else INVALID_STRING_CHAR)
    else Ok([c], p + 1)
  }

  /** An escape that cannot be read comes next. */
  predicate BadEscape(t: string, p: nat)
    requires p < |t| && Ended(t) && t[p] != '\0'
  {
    t[p + 1] == '\\' && Element(t, p).Err?
  }

  /** From p on the text reads as s up to q. */
  ghost predicate Reads(t: string, p: nat, q: nat, s: string)
    requires p < |t| && Ended(t) && t[p] != '\0'
    decreases |t| - p
  {
    if p == q then s == []
    else
      && p < q && t[p + 1] != '\"' && Element(t, p).Ok? && Element(t, p).value <= s
      && Reads(t, Element(t, p).next, q, s[|Element(t, p).value|..])
  }

  /** A string goes on behind its next element, or breaks off there. */
  lemma ScanElement(t: string, p: nat, read: string)
    requires p < |t| && Ended(t) && t[p] != '\0' && t[p + 1] != '\"'
    ensures var e := Element(t, p);
            Scan(t, p, read) == if e.Ok? then Scan(t, e.next, read + e.value)
                                else Err(e.code, 0, if BadEscape(t, p) then |read| else 0)
  {
    hide Unicode, EncodeUtf8;
  }

  /** From p on the text reads as s up to q, and an escape that cannot be read follows. */
  ghost predicate LeavesBehind(t: string, p: nat, q: nat, s: string)
    requires p < |t| && Ended(t) && t[p] != '\0'
  {
    p <= q < |t| && t[q] != '\0' && Reads(t, p, q, s) && BadEscape(t, q)
  }

  lemma {:induction false} BreaksOff(t: string, p: nat, read: string)
    returns (q: nat, s: string)
    requires p < |t| && Ended(t) && t[p] != '\0' && Scan(t, p, read).Err? && Scan(t, p, read).left > 0
    ensures LeavesBehind(t, p, q, s) && Scan(t, p, read).left == |read + s|
    decreases |t| - p
  {
    hide Element, Scan;
    ScanOpen(t, p, read);
    ScanElement(t, p, read);
    var e := Element(t, p);
    if e.Err? {
      q, s := p, [];
    } else {
      var s' : string;
      q, s' := BreaksOff(t, e.next, read + e.value);
      s := e.value + s';
      assert read + e.value + s' == read + s && s[|e.value|..] == s';
    }
  }

  lemma ScanOpen(t: string, p: nat, read: string)
    requires p < |t| && Ended(t) && t[p] != '\0' && Scan(t, p, read).Err?
    ensures t[p + 1] != '\"'
  {
  }

  lemma {:induction false} BreaksOffAt(t: string, p: nat, q: nat, s: string, read: string)
    requires p < |t| && Ended(t) && t[p] != '\0' && LeavesBehind(t, p, q, s)
    ensures Scan(t, p, read).Err? && Scan(t, p, read).left == |read + s|
    decreases |t| - p
  {
    hide Element, Scan;
    if p == q {
      assert read + s == read;
      ScanElement(t, p, read);
    } else {
      var e := Element(t, p);
      ScanElement(t, p, read);
      assert Reads(t, e.next, q, s[|e.value|..]) && e.next <= q;
      BreaksOffAt(t, e.next, q, s[|e.value|..], read + e.value);
      assert read + e.value + s[|e.value|..] == read + s;
    }
  }

  /** Reading a string leaves characters behind exactly when, after some characters, it
      comes to an escape that cannot be read. */
  lemma LeftOver(t: string, p: nat)
    requires p < |t| && Ended(t) && t[p] != '\0'
    ensures Scan(t, p, []).Err? && Scan(t, p, []).left > 0
            <==> exists q, s :: s != [] && LeavesBehind(t, p, q, s)
  {
    hide Scan, LeavesBehind;
    if Scan(t, p, []).Err? && Scan(t, p, []).left > 0 {
      var q, s := BreaksOff(t, p, []);
      assert [] + s == s;
    }
    forall q: nat, s: string | s != [] && LeavesBehind(t, p, q, s)
      ensures Scan(t, p, []).Err? && Scan(t, p, []).left > 0
    {
      BreaksOffAt(t, p, q, s, []);
      assert [] + s == s;
    }
  }

  /** The shortest such text: a quote, a letter, and a backslash before a letter that stands
      for nothing. Without the letter in front nothing is left behind. */
  lemma LetterLeftOver()
    ensures ParseValue("\"a\\x\"\0", 0) == Err(INVALID_STRING_CHAR, 0, 1)
    ensures ParseValue("\"\\x\"\0", 0) == Err(INVALID_STRING_CHAR, 0, 0)
  {
    var t := "\"a\\x\"\0";
    assert t[0] == '\"' && t[1] == 'a' && t[2] == '\\' && t[3] == 'x' && t[5] == '\0';
    assert Scan(t, 0, []) == Scan(t, 1, [] + ['a']);
    assert Scan(t, 1, ['a']) == Err(INVALID_STRING_CHAR, 0, 1);
    var u := "\"\\x\"\0";
    assert u[0] == '\"' && u[1] == '\\' && u[2] == 'x' && u[4] == '\0';
    assert Scan(u, 0, []) == Err(INVALID_STRING_CHAR, 0, 0);
  }

  /** A key with a quote is printed as it is, and the text is refused after the quote. */
  lemma QuoteInKey()
    ensures Print(Obj([Member("a\"", Null)])) == "{\"a\"\":null}"
    ensures ParseValue("{\"a\"\":null}\0", 0) == Err(MISS_COLON, 4)
  {
    var t := "{\"a\"\":null}\0";
    assert t[0] == '{' && t[1] == '\"' && t[2] == 'a' && t[3] == '\"' && t[4] == '\"' && t[11] == '\0';
    assert SkipSpace(t, 1) == 1 && SkipSpace(t, 4) == 4;
    assert Scan(t, 1, []) == Scan(t, 2, [] + ['a']);
    assert Scan(t, 2, ['a']) == Ok(['a'], 4);
    assert ParseMembers(t, 1, []) == Err(MISS_COLON, 4);
    var v := Obj([Member("a\"", Null)]);
    assert Print(v) == "{" + PrintMembers([Member("a\"", Null)]) + "}";
    assert PrintMembers([Member("a\"", Null)]) == PrintMember(Member("a\"", Null));
  }
}

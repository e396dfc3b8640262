/**
 The parser inverts the canonical printer: parsing the text of a value gives the value in key order.
 */
module CanonicalInverse {
  import opened Common
  import opened Ordering
  import opened CanonicalJson

  /** The value with every dict, at any depth, rewritten in key order. */
  function Normal(v: Value): Value
    decreases v, 0
  {
    match v
    case List(items) => List(NormalItems(items))
    case Dict(entries) => Dict(NormalEntries(entries, SortedKeys(entries)))
    case _ => v
  }

  function NormalItems(items: seq<Value>): (r: seq<Value>)
    ensures |r| == |items|
    decreases items, 0
  {
    if items == [] then [] else [Normal(items[0])] + NormalItems(items[1..])
  }

  function NormalEntries(entries: Entries, ks: seq<string>): (r: Entries)
    requires forall k :: k in ks ==> k in Keys(entries)
    ensures |r| == |ks|
    decreases entries, |ks|
  {
    if ks == [] then []
    else [Entry(ks[0], Normal(entries[Find(entries, ks[0])].value))] + NormalEntries(entries, ks[1..])
  }

  // ----- leaves

  lemma {:induction false} DigitsParse(n: nat, rest: string)
    ensures ParseDigits(Digits(n) + rest, 0) == ParseDigits(rest, n)
  {
    if n < 10 {
      assert ([DigitChar(n)] + rest)[1..] == rest;
    } else {
      var last := [DigitChar(n % 10)] + rest;
      assert Digits(n) + rest == Digits(n / 10) + last;
      DigitsParse(n / 10, last);
      assert last[1..] == rest;
    }
  }

  lemma EscapeCharParse(c: char, rest: string)
    ensures EscapeChar(c) != ""
    ensures var s := EscapeChar(c) + rest;
            if s[0] == '\\' then ParseEscape(s[1..]) == Some((c, rest))
            else s[0] == c && c >= ' ' && c != '\"' && s[1..] == rest
  {
    var s := EscapeChar(c) + rest;
    if s[0] == '\\' {
      assert s[1..] == EscapeChar(c)[1..] + rest;
      if c < ' ' && EscapeChar(c)[1] == 'u' {
        HexParse(c as int / 16);
        HexParse(c as int % 16);
        assert s[1..][5..] == rest;
      } else {
        assert s[1..][1..] == rest;
      }
    }
  }

  lemma HexParse(d: nat)
    requires d < 16
    ensures HexValue(HexChar(d)) == Some(d)
  {
  }

  /** One escaped character in front adds that character. */
  lemma CharParse(c: char, tail: string)
    ensures ParseChars(EscapeChar(c) + tail) == (match ParseChars(tail)
                                                 case Some((t, rest)) => Some(([c] + t, rest))
                                                 case None => None)
  {
    EscapeCharParse(c, tail);
    hide EscapeChar, ParseEscape;
  }

  lemma EscapeText(t: string, after: string)
    requires t != ""
    ensures Escape(t) + "\"" + after == EscapeChar(t[0]) + (Escape(t[1..]) + "\"" + after)
  {
  }

  lemma {:induction false} QuoteParse(t: string, rest: string)
    ensures ParseChars(Escape(t) + "\"" + rest) == Some((t, rest))
  {
    if t == "" {
      assert (Escape(t) + "\"" + rest)[1..] == rest;
    } else {
      hide *;
      QuoteParse(t[1..], rest);
      EscapeText(t, rest);
      CharParse(t[0], Escape(t[1..]) + "\"" + rest);
      assert t == [t[0]] + t[1..];
    }
  }

  // ----- whole values

  /** What may follow a value in canonical text: the end, or something that is no digit. */
  predicate Delimited(rest: string) {
    rest == "" || !IsDigit(rest[0])
  }

  lemma NatParse(n: nat, rest: string)
    requires Delimited(rest)
    ensures ParseValue(Digits(n) + rest) == Some((Int(n), rest))
  {
    var d := Digits(n) + rest;
    DigitsParse(n, rest);
    hide Digits;
    assert ParseDigits(d, 0) == ParseDigits(d[1..], DigitValue(d[0]));
  }

  lemma NegativeParse(n: nat, rest: string)
    requires Delimited(rest)
    ensures ParseValue("-" + Digits(n) + rest) == Some((Int(-(n as int)), rest))
  {
    var s := "-" + Digits(n) + rest;
    DigitsParse(n, rest);
    hide Digits;
    assert s[1..] == Digits(n) + rest;
  }

  lemma IntParse(i: int, rest: string)
    requires Delimited(rest)
    ensures ParseValue(IntText(i) + rest) == Some((Int(i), rest))
  {
    hide Digits, ParseValue;
    if i < 0 {
      NegativeParse(-i, rest);
    } else {
      NatParse(i, rest);
    }
  }

  lemma StrParse(t: string, rest: string)
    ensures ParseValue(Quote(t) + rest) == Some((Str(t), rest))
  {
    var s := Quote(t) + rest;
    assert s[1..] == Escape(t) + "\"" + rest;
    QuoteParse(t, rest);
  }

  /** No printed value starts with a closing bracket or brace. */
  lemma CanonicalStart(v: Value)
    ensures Canonical(v) != "" && Canonical(v)[0] !in "]}"
  {
    match v
    case Int(i) => assert IntText(i) != "";
    case _ =>
  }

  lemma {:induction false} ValueParse(v: Value, rest: string)
    requires Delimited(rest)
    ensures ParseValue(Canonical(v) + rest) == Some((Normal(v), rest))
    decreases v, 1
  {
    match v
    case Null => assert ("null" + rest)[4..] == rest;
    case Bool(b) =>
      if b {
        assert ("true" + rest)[4..] == rest;
      } else {
        assert ("false" + rest)[5..] == rest;
      }
    case Int(i) => IntParse(i, rest);
    case Str(t) => StrParse(t, rest);
    case List(items) => ListParse(items, rest);
    case Dict(entries) => DictParse(entries, rest);
  }

  /** A non-empty list or dict text is its bracket and what the bracket's parser takes. */
  lemma BracketParse(body: string)
    requires body != "" && body[0] !in "]}"
    ensures ParseValue("[" + body) == (match ParseItems(body)
                                       case Some((items, rest)) => Some((List(items), rest))
                                       case None => None)
    ensures ParseValue("{" + body) == (match ParseMembers(body)
                                       case Some((entries, rest)) => Some((Dict(entries), rest))
                                       case None => None)
  {
    assert ("[" + body)[1..] == body && ("{" + body)[1..] == body;
  }

  lemma EmptyParse(rest: string)
    ensures ParseValue("[]" + rest) == Some((List([]), rest))
    ensures ParseValue("{}" + rest) == Some((Dict([]), rest))
  {
    assert ("[]" + rest)[2..] == rest && ("{}" + rest)[2..] == rest;
  }

  lemma ListText(items: seq<Value>)
    ensures Canonical(List(items)) == "[" + PrintItems(items) + "]" && Normal(List(items)) == List(NormalItems(items))
    ensures items == [] ==> PrintItems(items) == "" && NormalItems(items) == []
    ensures items != [] ==> PrintItems(items) != "" && PrintItems(items)[0] !in "]}"
  {
    if items != [] {
      CanonicalStart(items[0]);
    }
  }

  lemma {:induction false} ListParse(items: seq<Value>, rest: string)
    ensures ParseValue(Canonical(List(items)) + rest) == Some((Normal(List(items)), rest))
    decreases items, 1
  {
    hide *;
    ListText(items);
    if items == [] {
      EmptyParse(rest);
      assert "[" + "" + "]" + rest == "[]" + rest;
    } else {
      ItemsParse(items, rest);
      var body := PrintItems(items) + "]" + rest;
      BracketParse(body);
      assert "[" + PrintItems(items) + "]" + rest == "[" + body;
    }
  }

  lemma {:induction false} ItemsParse(items: seq<Value>, rest: string)
    requires items != []
    ensures ParseItems(PrintItems(items) + "]" + rest) == Some((NormalItems(items), rest))
    decreases items, 0
  {
    hide ParseValue, Canonical, Normal;
    var s := PrintItems(items) + "]" + rest;
    if |items| == 1 {
      ValueParse(items[0], "]" + rest);
      assert s == Canonical(items[0]) + ("]" + rest);
      assert ("]" + rest)[1..] == rest;
      assert NormalItems(items) == [Normal(items[0])];
    } else {
      var tail := PrintItems(items[1..]) + "]" + rest;
      assert s == Canonical(items[0]) + ("," + tail);
      ValueParse(items[0], "," + tail);
      assert ("," + tail)[1..] == tail;
      ItemsParse(items[1..], rest);
    }
  }

  lemma DictText(entries: Entries)
    ensures Canonical(Dict(entries)) == "{" + PrintMembers(entries, SortedKeys(entries)) + "}"
    ensures Normal(Dict(entries)) == Dict(NormalEntries(entries, SortedKeys(entries)))
    ensures SortedKeys(entries) == [] ==>
              PrintMembers(entries, SortedKeys(entries)) == "" && NormalEntries(entries, SortedKeys(entries)) == []
  {
  }

  lemma {:induction false} DictParse(entries: Entries, rest: string)
    ensures ParseValue(Canonical(Dict(entries)) + rest) == Some((Normal(Dict(entries)), rest))
    decreases entries, |entries| + 1
  {
    hide *;
    DictText(entries);
    var ks := SortedKeys(entries);
    SameElements(ks, Keys(entries));
    if ks == [] {
      EmptyParse(rest);
      assert "{" + "" + "}" + rest == "{}" + rest;
    } else {
      MembersParse(entries, ks, rest);
      MembersStart(entries, ks);
      var body := PrintMembers(entries, ks) + "}" + rest;
      BracketParse(body);
      assert "{" + PrintMembers(entries, ks) + "}" + rest == "{" + body;
    }
  }

  lemma MembersStart(entries: Entries, ks: seq<string>)
    requires ks != [] && forall k :: k in ks ==> k in Keys(entries)
    ensures PrintMembers(entries, ks) != "" && PrintMembers(entries, ks)[0] == '\"'
  {
    assert Quote(ks[0])[0] == '\"';
  }

  /** One member: its key, a colon, a value text that parses back, and what follows. */
  lemma MemberParse(k: string, text: string, v: Value, tail: string)
    requires ParseValue(text + tail) == Some((v, tail)) && tail != ""
    ensures var r := ParseMembers(Quote(k) + ":" + text + tail);
            && (tail[0] == '}' ==> r == Some(([Entry(k, v)], tail[1..])))
            && (tail[0] == ',' ==>
                  r == match ParseMembers(tail[1..])
                       case Some((more, rest)) => Some(([Entry(k, v)] + more, rest))
                       case None => None)
  {
    hide ParseValue, ParseChars, Escape;
    var s := Quote(k) + ":" + text + tail;
    var afterKey := ":" + (text + tail);
    assert s[1..] == Escape(k) + "\"" + afterKey;
    QuoteParse(k, afterKey);
    assert afterKey[1..] == text + tail;
  }

  /** What follows the first member: the closing brace, or a comma and the other members. */
  function AfterMember(entries: Entries, ks: seq<string>, rest: string): string
    requires ks != [] && forall k :: k in ks ==> k in Keys(entries)
  {
    if |ks| == 1 then "}" + rest else "," + (PrintMembers(entries, ks[1..]) + "}" + rest)
  }

  lemma MembersText(entries: Entries, ks: seq<string>, rest: string)
    requires ks != [] && forall k :: k in ks ==> k in Keys(entries)
    ensures PrintMembers(entries, ks) + "}" + rest
         == Quote(ks[0]) + ":" + Canonical(entries[Find(entries, ks[0])].value) + AfterMember(entries, ks, rest)
  {
    FirstMember(entries, ks);
    hide Quote, Canonical, Find, Keys, PrintMembers;
    var member := Quote(ks[0]) + ":" + Canonical(entries[Find(entries, ks[0])].value);
    if |ks| == 1 {
      CloseAfter(member, rest);
    } else {
      CloseAfterMore(member, PrintMembers(entries, ks[1..]), rest);
    }
  }

  lemma FirstMember(entries: Entries, ks: seq<string>)
    requires ks != [] && forall k :: k in ks ==> k in Keys(entries)
    ensures var member := Quote(ks[0]) + ":" + Canonical(entries[Find(entries, ks[0])].value);
            PrintMembers(entries, ks) == if |ks| == 1 then member else member + "," + PrintMembers(entries, ks[1..])
  {
    hide Quote, Canonical, Find, Keys;
  }

  lemma CloseAfter(member: string, rest: string)
    ensures member + "}" + rest == member + ("}" + rest)
  {
  }

  lemma CloseAfterMore(member: string, others: string, rest: string)
    ensures member + "," + others + "}" + rest == member + ("," + (others + "}" + rest))
  {
  }

  lemma {:induction false} MembersParse(entries: Entries, ks: seq<string>, rest: string)
    requires ks != [] && forall k :: k in ks ==> k in Keys(entries)
    ensures ParseMembers(PrintMembers(entries, ks) + "}" + rest) == Some((NormalEntries(entries, ks), rest))
    decreases entries, |ks|
  {
    hide ParseValue, ParseMembers, Canonical, Normal, PrintMembers, Quote;
    var v := entries[Find(entries, ks[0])].value;
    var tail := AfterMember(entries, ks, rest);
    MembersText(entries, ks, rest);
    ValueParse(v, tail);
    MemberParse(ks[0], Canonical(v), Normal(v), tail);
    if |ks| == 1 {
      assert tail[1..] == rest;
      assert NormalEntries(entries, ks) == [Entry(ks[0], Normal(v))];
    } else {
      assert tail[1..] == PrintMembers(entries, ks[1..]) + "}" + rest;
      MembersParse(entries, ks[1..], rest);
    }
  }

  /** Parsing the canonical text consumes all of it and returns the value in key order. */
  lemma RoundTrip(v: Value)
    ensures Parse(Canonical(v)) == Some(Normal(v))
  {
    ValueParse(v, "");
    assert Canonical(v) + "" == Canonical(v);
  }
}

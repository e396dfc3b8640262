/**
 Which text the canonical printer writes: no shorter text means the same value in key order, unicode
 escapes are in lower case, and the keys of every dict ascend by code points.
 */
module CanonicalText {
  import opened Common
  import opened Ordering
  import opened CanonicalJson
  import opened CanonicalInverse

  // ----- a value in its own order

  /** The text of a value with the entries of its dicts in the order they have. */
  function Compact(v: Value): string
    decreases v, 0
  {
    match v
    case List(items) => "[" + CompactItems(items) + "]"
    case Dict(entries) => "{" + CompactMembers(entries) + "}"
    case _ => Canonical(v)
  }

  function CompactItems(items: seq<Value>): string
    decreases items, 0
  {
    if items == [] then ""
    else if |items| == 1 then Compact(items[0])
    else Compact(items[0]) + "," + CompactItems(items[1..])
  }

  function CompactMembers(entries: Entries): string
    decreases entries, 0
  {
    if entries == [] then ""
    else
      var member := Quote(entries[0].key) + ":" + Compact(entries[0].value);
      if |entries| == 1 then member else member + "," + CompactMembers(entries[1..])
  }

  /** The canonical text is the text of the value in key order. */
  lemma {:induction false} CanonicalIsCompact(v: Value)
    ensures Canonical(v) == Compact(Normal(v))
    decreases v, 1
  {
    match v
    case List(items) => ItemsAreCompact(items);
    case Dict(entries) => MembersAreCompact(entries, SortedKeys(entries));
    case _ =>
  }

  lemma {:induction false} ItemsAreCompact(items: seq<Value>)
    ensures PrintItems(items) == CompactItems(NormalItems(items))
    decreases items, 0
  {
    if items != [] {
      CanonicalIsCompact(items[0]);
      ItemsAreCompact(items[1..]);
      assert NormalItems(items)[1..] == NormalItems(items[1..]);
    }
  }

  lemma {:induction false} MembersAreCompact(entries: Entries, ks: seq<string>)
    requires forall k :: k in ks ==> k in Keys(entries)
    ensures PrintMembers(entries, ks) == CompactMembers(NormalEntries(entries, ks))
    decreases entries, |ks|
  {
    if ks != [] {
      CanonicalIsCompact(entries[Find(entries, ks[0])].value);
      MembersAreCompact(entries, ks[1..]);
      assert NormalEntries(entries, ks)[1..] == NormalEntries(entries, ks[1..]);
    }
  }

  // ----- no text is shorter

  /** Equal, or the same hexadecimal digit in two cases. */
  predicate Alike(c: char, d: char) {
    c == d || (HexValue(c).Some? && HexValue(c) == HexValue(d))
  }

  ghost predicate AlikeText(s: string, t: string) {
    |s| == |t| && forall i :: 0 <= i < |s| ==> Alike(s[i], t[i])
  }

  /** To get from `s` to its end `rest` takes no less than `body`, and if no more, then `body` up to the case of digits. */
  ghost predicate Takes(s: string, body: string, rest: string) {
    |body| + |rest| <= |s| && (|body| + |rest| == |s| ==> AlikeText(s, body + rest))
  }

  lemma TakesBoth(s: string, a: string, mid: string, b: string, rest: string)
    requires Takes(s, a, mid) && Takes(mid, b, rest)
    ensures Takes(s, a + b, rest)
  {
    if |a + b| + |rest| == |s| {
      forall i | 0 <= i < |s|
        ensures Alike(s[i], (a + b + rest)[i])
      {
        assert Alike(s[i], (a + mid)[i]);
        if i >= |a| {
          assert Alike(mid[i - |a|], (b + rest)[i - |a|]);
          assert (a + b + rest)[i] == (b + rest)[i - |a|];
        }
      }
    }
  }

  lemma TakesPrefix(body: string, rest: string)
    ensures Takes(body + rest, body, rest)
  {
  }

  lemma TakesOne(s: string)
    requires s != ""
    ensures Takes(s, [s[0]], s[1..])
  {
    assert s == [s[0]] + s[1..];
  }

  lemma EscapeShortest(s: string)
    requires s != "" && s[0] == '\\'
    ensures var r := ParseEscape(s[1..]); r.Some? ==> Takes(s, EscapeChar(r.value.0), r.value.1)
  {
    var r := ParseEscape(s[1..]);
    if r.None? {
    } else if s[1] == 'u' {
      UnicodeShortest(s, r.value.0);
    } else {
      var c := r.value.0;
      assert s == [s[0], s[1]] + s[2..] && r.value.1 == s[2..];
      assert EscapeChar(c) == [s[0], s[1]] || (c == '/' && EscapeChar(c) == "/");
    }
  }

  lemma UnicodeShortest(s: string, c: char)
    requires |s| >= 6 && s[0] == '\\' && s[1] == 'u' && ParseEscape(s[1..]) == Some((c, s[6..]))
    ensures Takes(s, EscapeChar(c), s[6..])
  {
    assert |EscapeChar(c)| <= 6;
    var w, x, y, z := HexValue(s[2]).value, HexValue(s[3]).value, HexValue(s[4]).value, HexValue(s[5]).value;
    assert c as int == ((w * 16 + x) * 16 + y) * 16 + z;
    if |EscapeChar(c)| == 6 {
      assert w == 0 && x == 0 && c as int / 16 == y && c as int % 16 == z;
      HexParse(y);
      HexParse(z);
      assert EscapeChar(c) == ['\\', 'u', '0', '0', HexChar(y), HexChar(z)];
      hide EscapeChar, ParseEscape, HexChar;
      var t := EscapeChar(c) + s[6..];
      assert forall i :: 6 <= i < |s| ==> t[i] == s[i];
      assert Alike(s[2], t[2]) && Alike(s[3], t[3]) && Alike(s[4], t[4]) && Alike(s[5], t[5]);
    }
  }

  lemma EscapeCons(c: char, t: string)
    ensures Escape([c] + t) == EscapeChar(c) + Escape(t)
    ensures c >= ' ' && c != '\"' && c != '\\' ==> EscapeChar(c) == [c]
  {
    assert ([c] + t)[1..] == t;
  }

  lemma {:induction false} CharsShortest(s: string)
    ensures var r := ParseChars(s); r.Some? ==> Takes(s, Escape(r.value.0) + "\"", r.value.1)
    decreases |s|
  {
    hide EscapeChar, ParseEscape, Takes;
    if s == "" {
    } else if s[0] == '\"' {
      TakesOne(s);
      assert Escape("") + "\"" == "\"";
    } else if s[0] == '\\' {
      EscapeShortest(s);
      var e := ParseEscape(s[1..]);
      if e.Some? {
        CharsShortest(e.value.1);
        CharsCons(s, e.value.0, e.value.1);
      }
    } else if s[0] >= ' ' {
      CharsShortest(s[1..]);
      TakesOne(s);
      EscapeCons(s[0], "");
      CharsCons(s, s[0], s[1..]);
    }
  }

  lemma CharsCons(s: string, c: char, rest: string)
    requires Takes(s, EscapeChar(c), rest)
    requires var r := ParseChars(rest); r.Some? ==> Takes(rest, Escape(r.value.0) + "\"", r.value.1)
    ensures var r := ParseChars(rest); r.Some? ==> Takes(s, Escape([c] + r.value.0) + "\"", r.value.1)
  {
    hide *;
    var r := ParseChars(rest);
    if r.Some? {
      EscapeCons(c, r.value.0);
      TakesBoth(s, EscapeChar(c), rest, Escape(r.value.0) + "\"", r.value.1);
      assert EscapeChar(c) + (Escape(r.value.0) + "\"") == EscapeChar(c) + Escape(r.value.0) + "\"";
    }
  }

  lemma DigitsGrow(n: nat, d: nat)
    requires d < 10
    ensures n > 0 ==> Digits(10 * n + d) == Digits(n) + [DigitChar(d)]
    ensures n == 0 ==> Digits(10 * n + d) == [DigitChar(d)] && |Digits(n)| == 1
  {
  }

  lemma DigitIsItsChar(c: char)
    requires IsDigit(c)
    ensures DigitChar(DigitValue(c)) == c
  {
  }

  /** Digits read after those of `acc`. */
  lemma {:induction false} DigitsShortest(s: string, acc: nat)
    ensures var r := ParseDigits(s, acc); Takes(Digits(acc) + s, Digits(r.0), r.1)
    decreases |s|
  {
    hide Takes;
    if s == "" || !IsDigit(s[0]) {
      TakesPrefix(Digits(acc), s);
    } else {
      var d := DigitValue(s[0]);
      DigitIsItsChar(s[0]);
      DigitsGrow(acc, d);
      hide Digits;
      DigitsShortest(s[1..], 10 * acc + d);
      var r := ParseDigits(s, acc);
      if acc > 0 {
        assert Digits(acc) + s == Digits(10 * acc + d) + s[1..];
      } else {
        assert s == [s[0]] + s[1..];
        TakesLonger(Digits(acc), s, Digits(r.0), r.1);
      }
    }
  }

  /** A digit too many is no tight text. */
  lemma TakesLonger(a: string, s: string, body: string, rest: string)
    requires a != "" && Takes(s, body, rest)
    ensures Takes(a + s, body, rest)
  {
  }

  /** The text of a number from its first digit on. */
  lemma NumberShortest(s: string)
    requires s != "" && IsDigit(s[0])
    ensures var r := ParseDigits(s[1..], DigitValue(s[0])); Takes(s, Digits(r.0), r.1) && r == ParseDigits(s, 0)
  {
    hide Takes;
    DigitsShortest(s[1..], DigitValue(s[0]));
    DigitsGrow(0, DigitValue(s[0]));
    DigitIsItsChar(s[0]);
    assert s == [s[0]] + s[1..];
  }

  lemma NegativeShortest(s: string)
    requires |s| > 1 && s[0] == '-' && IsDigit(s[1])
    ensures var r := ParseDigits(s[1..], 0); Takes(s, IntText(0 - r.0), r.1)
  {
    NumberShortest(s[1..]);
    hide Takes, Digits;
    var r := ParseDigits(s[1..], 0);
    TakesOne(s);
    if r.0 > 0 {
      TakesBoth(s, "-", s[1..], Digits(r.0), r.1);
    } else {
      assert s == "-" + s[1..];
      TakesLonger("-", s[1..], Digits(0), r.1);
    }
  }

  lemma WordShortest(s: string)
    requires s != "" && s[0] in "ntf"
    ensures var r := ParseValue(s); r.Some? ==> Takes(s, Compact(r.value.0), r.value.1)
  {
    assert "null" <= s ==> s == "null" + s[4..];
    assert "true" <= s ==> s == "true" + s[4..];
    assert "false" <= s ==> s == "false" + s[5..];
  }

  /** An opening bracket and what follows it, or an empty pair. */
  lemma BracketShortest(s: string, body: string, rest: string)
    requires s != "" && Takes(s[1..], body, rest)
    ensures Takes(s, [s[0]] + body, rest)
  {
    hide Takes;
    TakesOne(s);
    TakesBoth(s, [s[0]], s[1..], body, rest);
  }

  /** A text that parses takes at least the text of its value. */
  lemma {:induction false} ValueShortest(s: string)
    ensures var r := ParseValue(s); r.Some? ==> Takes(s, Compact(r.value.0), r.value.1)
    decreases |s|, 1
  {
    hide Takes;
    var r := ParseValue(s);
    if r.None? {
    } else if s[0] in "ntf" {
      WordShortest(s);
    } else if s[0] == '\"' {
      CharsShortest(s[1..]);
      BracketShortest(s, Escape(r.value.0.s) + "\"", r.value.1);
      assert Quote(r.value.0.s) == "\"" + (Escape(r.value.0.s) + "\"");
    } else if s[0] == '[' {
      ListShortest(s);
    } else if s[0] == '{' {
      DictShortest(s);
    } else if s[0] == '-' {
      NegativeShortest(s);
    } else {
      NumberShortest(s);
    }
  }

  lemma {:induction false} ListShortest(s: string)
    requires s != "" && s[0] == '['
    ensures var r := ParseValue(s); r.Some? ==> Takes(s, Compact(r.value.0), r.value.1)
    decreases |s|, 0
  {
    hide Takes;
    if |s| > 1 && s[1] == ']' {
      assert s == "[]" + s[2..];
      TakesPrefix("[]", s[2..]);
      assert Compact(List([])) == "[]";
    } else {
      ItemsShortest(s[1..]);
      var r := ParseItems(s[1..]);
      if r.Some? {
        BracketShortest(s, CompactItems(r.value.0) + "]", r.value.1);
        assert "[" + (CompactItems(r.value.0) + "]") == "[" + CompactItems(r.value.0) + "]";
      }
    }
  }

  lemma {:induction false} DictShortest(s: string)
    requires s != "" && s[0] == '{'
    ensures var r := ParseValue(s); r.Some? ==> Takes(s, Compact(r.value.0), r.value.1)
    decreases |s|, 0
  {
    hide Takes;
    if |s| > 1 && s[1] == '}' {
      assert s == "{}" + s[2..];
      TakesPrefix("{}", s[2..]);
      assert Compact(Dict([])) == "{}";
    } else {
      MembersShortest(s[1..]);
      var r := ParseMembers(s[1..]);
      if r.Some? {
        BracketShortest(s, CompactMembers(r.value.0) + "}", r.value.1);
        assert "{" + (CompactMembers(r.value.0) + "}") == "{" + CompactMembers(r.value.0) + "}";
      }
    }
  }

  lemma {:induction false} ItemsShortest(s: string)
    ensures var r := ParseItems(s); r.Some? ==> Takes(s, CompactItems(r.value.0) + "]", r.value.1)
    decreases |s|, 2
  {
    hide ParseValue, Compact, Takes;
    ValueShortest(s);
    var v := ParseValue(s);
    if v.Some? && v.value.1 != "" {
      var rest := v.value.1;
      TakesOne(rest);
      TakesBoth(s, Compact(v.value.0), rest, [rest[0]], rest[1..]);
      if rest[0] == ',' {
        ItemsShortest(rest[1..]);
        var more := ParseItems(rest[1..]);
        if more.Some? {
          ItemsCons(v.value.0, more.value.0);
          TakesBoth(s, Compact(v.value.0) + ",", rest[1..], CompactItems(more.value.0) + "]", more.value.1);
        }
      }
    }
  }

  lemma ItemsCons(v: Value, items: seq<Value>)
    requires items != []
    ensures Compact(v) + "," + (CompactItems(items) + "]") == CompactItems([v] + items) + "]"
  {
    hide Compact;
    assert ([v] + items)[1..] == items;
  }

  lemma {:induction false} MembersShortest(s: string)
    ensures var r := ParseMembers(s); r.Some? ==> Takes(s, CompactMembers(r.value.0) + "}", r.value.1)
    decreases |s|, 2
  {
    hide ParseValue, Compact, ParseChars, Escape, Takes;
    if s != "" && s[0] == '\"' {
      CharsShortest(s[1..]);
      var k := ParseChars(s[1..]);
      if k.Some? && k.value.1 != "" && k.value.1[0] == ':' {
        var afterKey := k.value.1;
        ValueShortest(afterKey[1..]);
        var v := ParseValue(afterKey[1..]);
        if v.Some? && v.value.1 != "" {
          var rest := v.value.1;
          MemberShortest(s, k.value.0, afterKey, v.value.0, rest);
          var member := Quote(k.value.0) + ":" + Compact(v.value.0);
          if rest[0] == ',' {
            MembersShortest(rest[1..]);
            var more := ParseMembers(rest[1..]);
            if more.Some? {
              MembersCons(Entry(k.value.0, v.value.0), more.value.0);
              TakesBoth(s, member + ",", rest[1..], CompactMembers(more.value.0) + "}", more.value.1);
            }
          }
        }
      }
    }
  }

  lemma MemberShortest(s: string, key: string, afterKey: string, v: Value, rest: string)
    requires s != "" && s[0] == '\"' && Takes(s[1..], Escape(key) + "\"", afterKey)
    requires afterKey != "" && afterKey[0] == ':' && Takes(afterKey[1..], Compact(v), rest) && rest != ""
    ensures Takes(s, Quote(key) + ":" + Compact(v) + [rest[0]], rest[1..])
  {
    hide Takes, Compact, Escape;
    BracketShortest(s, Escape(key) + "\"", afterKey);
    assert "\"" + (Escape(key) + "\"") == Quote(key);
    TakesOne(afterKey);
    TakesBoth(s, Quote(key), afterKey, ":", afterKey[1..]);
    TakesBoth(s, Quote(key) + ":", afterKey[1..], Compact(v), rest);
    TakesOne(rest);
    TakesBoth(s, Quote(key) + ":" + Compact(v), rest, [rest[0]], rest[1..]);
  }

  lemma MembersCons(e: Entry, entries: Entries)
    requires entries != []
    ensures Quote(e.key) + ":" + Compact(e.value) + "," + (CompactMembers(entries) + "}") == CompactMembers([e] + entries) + "}"
  {
    hide Compact, Quote;
    assert ([e] + entries)[1..] == entries;
  }

  /**
   No text that means the value in key order is shorter than the canonical one, and one of the same
   length differs from it at most in the case of hexadecimal digits.
   */
  lemma CanonicalIsShortest(v: Value, text: string)
    requires Parse(text) == Some(Normal(v))
    ensures |Canonical(v)| <= |text|
    ensures |Canonical(v)| == |text| ==> AlikeText(text, Canonical(v))
  {
    ValueShortest(text);
    CanonicalIsCompact(v);
    assert Canonical(v) + "" == Canonical(v);
  }

  /** Those digits are in lower case. */
  lemma EscapesAreLowerCase(c: char, d: char)
    requires |EscapeChar(c)| > 1 && d in EscapeChar(c)
    ensures !('A' <= d <= 'F')
  {
  }

  // ----- the keys ascend

  /** In every dict of the value, at any depth, no key comes before an earlier one. */
  ghost predicate KeysAscend(v: Value) {
    match v
    case List(items) => forall i :: 0 <= i < |items| ==> KeysAscend(items[i])
    case Dict(entries) =>
      && (forall i, j :: 0 <= i < j < |entries| ==> Ascends(entries[i].key, entries[j].key))
      && forall i :: 0 <= i < |entries| ==> KeysAscend(entries[i].value)
    case _ => true
  }

  lemma {:induction false} NormalAscends(v: Value)
    ensures KeysAscend(Normal(v))
    decreases v, 1
  {
    match v
    case List(items) => NormalItemsAscend(items);
    case Dict(entries) =>
      var ks := SortedKeys(entries);
      NormalEntriesAscend(entries, ks);
      SortIsSorted((k: string) => k, Keys(entries));
      var sorted := NormalEntries(entries, ks);
      hide NormalEntries, SortedKeys;
      forall i, j | 0 <= i < j < |sorted|
        ensures Ascends(sorted[i].key, sorted[j].key)
      {
        BelowIffAscends(ks[i], ks[j]);
      }
    case _ =>
  }

  lemma {:induction false} NormalItemsAscend(items: seq<Value>)
    ensures forall i :: 0 <= i < |items| ==> KeysAscend(NormalItems(items)[i])
    decreases items, 0
  {
    if items != [] {
      NormalAscends(items[0]);
      NormalItemsAscend(items[1..]);
    }
  }

  lemma {:induction false} NormalEntriesAscend(entries: Entries, ks: seq<string>)
    requires forall k :: k in ks ==> k in Keys(entries)
    ensures forall i :: 0 <= i < |ks| ==>
              NormalEntries(entries, ks)[i].key == ks[i] && KeysAscend(NormalEntries(entries, ks)[i].value)
    decreases entries, |ks|
  {
    if ks != [] {
      NormalAscends(entries[Find(entries, ks[0])].value);
      NormalEntriesAscend(entries, ks[1..]);
    }
  }

  /** Read back, the canonical text has the keys of every dict in code-point order. */
  lemma CanonicalKeysAscend(v: Value)
    ensures Parse(Canonical(v)).Some? && KeysAscend(Parse(Canonical(v)).value)
  {
    RoundTrip(v);
    NormalAscends(v);
  }
}

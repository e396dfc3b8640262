/**
 The canonical JSON printer of scripts/run_step010a_acceptance.py, whose text is hashed to
 sign fixtures, and a parser for JSON text without insignificant white space (sections 4, 5,
 6 and 7 of RFC 8259) that inverts it.
 */
module CanonicalJson {
  import opened Common
  import opened Ordering

  /** A loaded JSON value; a dict keeps its keys in insertion order. */
  datatype Value =
    | Null
    | Bool(b: bool)
    | Int(i: int)
    | Str(s: string)
    | List(items: seq<Value>)
    | Dict(entries: seq<Entry>)

  datatype Entry = Entry(key: string, value: Value)

  type Entries = seq<Entry>

  function Keys(entries: Entries): (ks: seq<string>)
    ensures |ks| == |entries| && forall i :: 0 <= i < |ks| ==> ks[i] == entries[i].key
  {
    seq(|entries|, i requires 0 <= i < |entries| => entries[i].key)
  }

  /** The position of `k`: indexing a dict. */
  function Find(entries: Entries, k: string): (i: nat)
    requires k in Keys(entries)
    ensures i < |entries| && entries[i].key == k
  {
    if entries[0].key == k then 0 else
      assert k in Keys(entries[1..]) by {
        var j :| 0 <= j < |entries| && Keys(entries)[j] == k;
        assert Keys(entries[1..])[j - 1] == k;
      }
      1 + Find(entries[1..], k)
  }

  function SortedKeys(entries: Entries): (ks: seq<string>)
    ensures multiset(ks) == multiset(Keys(entries))
    ensures forall k :: k in ks <==> k in Keys(entries)
  {
    var ks := Sort((k: string) => k, Keys(entries));
    SameElements(ks, Keys(entries));
    ks
  }

  // ----- leaves, as `json.dumps(..., ensure_ascii=False)` writes them

  predicate IsDigit(c: char) {
    '0' <= c <= '9'
  }

  function DigitChar(d: nat): (c: char)
    requires d < 10
    ensures IsDigit(c) && DigitValue(c) == d
  {
    (d + 48) as char
  }

  function DigitValue(c: char): (d: nat)
    requires IsDigit(c)
    ensures d < 10
  {
    c as int - 48
  }

  function Digits(n: nat): (s: string)
    ensures s != "" && IsDigit(s[0])
  {
    if n < 10 then [DigitChar(n)] else Digits(n / 10) + [DigitChar(n % 10)]
  }

  function IntText(i: int): string {
    if i < 0 then "-" + Digits(-i) else Digits(i)
  }

  function HexChar(d: nat): char
    requires d < 16
  {
    if d < 10 then (d + 48) as char else (d + 87) as char
  }

  function EscapeChar(c: char): string {
    if c == '\"' then "\\\""
    else if c == '\\' then "\\\\"
    else if c == 8 as char then "\\b"
    else if c == 12 as char then "\\f"
    else if c == '\n' then "\\n"
    else if c == '\r' then "\\r"
    else if c == '\t' then "\\t"
    else if c < ' ' then "\\u00" + [HexChar(c as int / 16), HexChar(c as int % 16)]
    else [c]
  }

  function Escape(s: string): string {
    if s == "" then "" else EscapeChar(s[0]) + Escape(s[1..])
  }

  function Quote(s: string): string {
    "\"" + Escape(s) + "\""
  }

  // ----- the printer

  function Canonical(v: Value): string
    decreases v, 0
  {
    match v
    case Null => "null"
    case Bool(b) => if b then "true" else "false"
    case Int(i) => IntText(i)
    case Str(s) => Quote(s)
    case List(items) => "[" + PrintItems(items) + "]"
    case Dict(entries) => "{" + PrintMembers(entries, SortedKeys(entries)) + "}"
  }

  function PrintItems(items: seq<Value>): string
    decreases items, 0
  {
    if items == [] then ""
    else if |items| == 1 then Canonical(items[0])
    else Canonical(items[0]) + "," + PrintItems(items[1..])
  }

  function PrintMembers(entries: Entries, ks: seq<string>): string
    requires forall k :: k in ks ==> k in Keys(entries)
    decreases entries, |ks|
  {
    if ks == [] then ""
    else
      var member := Quote(ks[0]) + ":" + Canonical(entries[Find(entries, ks[0])].value);
      if |ks| == 1 then member else member + "," + PrintMembers(entries, ks[1..])
  }

  // ----- the parser

  function ParseDigits(s: string, acc: nat): (r: (nat, string))
    ensures |r.1| <= |s|
  {
    if s == "" || !IsDigit(s[0]) then (acc, s) else ParseDigits(s[1..], 10 * acc + DigitValue(s[0]))
  }

  function HexValue(c: char): Option<nat> {
    if '0' <= c <= '9' then Some(c as int - 48)
    else if 'a' <= c <= 'f' then Some(c as int - 87)
    else if 'A' <= c <= 'F' then Some(c as int - 55)
    else None
  }

  /** The character behind a backslash, and what follows the escape. */
  function ParseEscape(s: string): (r: Option<(char, string)>)
    ensures r.Some? ==> |r.value.1| < |s|
  {
    if s == "" then None
    else if s[0] in "\"\\/" then Some((s[0], s[1..]))
    else if s[0] == 'b' then Some((8 as char, s[1..]))
    else if s[0] == 'f' then Some((12 as char, s[1..]))
    else if s[0] == 'n' then Some(('\n', s[1..]))
    else if s[0] == 'r' then Some(('\r', s[1..]))
    else if s[0] == 't' then Some(('\t', s[1..]))
    else if s[0] == 'u' && |s| >= 5 then
      match (HexValue(s[1]), HexValue(s[2]), HexValue(s[3]), HexValue(s[4]))
      case (Some(a), Some(b), Some(c), Some(d)) =>
        var code := ((a * 16 + b) * 16 + c) * 16 + d;
        if 0 <= code < 0xD800 || 0xE000 <= code < 0x10000 then Some((code as char, s[5..])) else None
      case _ => None
    else None
  }

  /** The characters of a string up to its closing quote. */
  function ParseChars(s: string): (r: Option<(string, string)>)
    ensures r.Some? ==> |r.value.1| < |s|
    decreases |s|
  {
    if s == "" then None
    else if s[0] == '\"' then Some(("", s[1..]))
    else if s[0] == '\\' then
      match ParseEscape(s[1..])
      case Some((c, rest)) =>
        (match ParseChars(rest)
         case Some((t, rest')) => Some(([c] + t, rest'))
         case None => None)
      case None => None
    else if s[0] < ' ' then None
    else
      match ParseChars(s[1..])
      case Some((t, rest)) => Some(([s[0]] + t, rest))
      case None => None
  }

  function ParseValue(s: string): (r: Option<(Value, string)>)
    ensures r.Some? ==> |r.value.1| < |s|
    decreases |s|, 0
  {
    if s == "" then None
    else if s[0] == 'n' then (if "null" <= s then Some((Null, s[4..])) else None)
    else if s[0] == 't' then (if "true" <= s then Some((Bool(true), s[4..])) else None)
    else if s[0] == 'f' then (if "false" <= s then Some((Bool(false), s[5..])) else None)
    else if s[0] == '\"' then
      match ParseChars(s[1..])
      case Some((t, rest)) => Some((Str(t), rest))
      case None => None
    else if s[0] == '[' then
      if |s| > 1 && s[1] == ']' then Some((List([]), s[2..]))
      else
        match ParseItems(s[1..])
        case Some((items, rest)) => Some((List(items), rest))
        case None => None
    else if s[0] == '{' then
      if |s| > 1 && s[1] == '}' then Some((Dict([]), s[2..]))
      else
        match ParseMembers(s[1..])
        case Some((entries, rest)) => Some((Dict(entries), rest))
        case None => None
    else if s[0] == '-' && |s| > 1 && IsDigit(s[1]) then
      var (n, rest) := ParseDigits(s[1..], 0);
      Some((Int(0 - n), rest))
    else if IsDigit(s[0]) then
      var (n, rest) := ParseDigits(s[1..], DigitValue(s[0]));
      Some((Int(n), rest))
    else None
  }

  /** One or more values separated by commas, and the closing bracket. */
  function ParseItems(s: string): (r: Option<(seq<Value>, string)>)
    ensures r.Some? ==> |r.value.1| < |s|
    decreases |s|, 1
  {
    match ParseValue(s)
    case None => None
    case Some((v, rest)) =>
      if rest == "" then None
      else if rest[0] == ']' then Some(([v], rest[1..]))
      else if rest[0] == ',' then
        match ParseItems(rest[1..])
        case Some((more, rest')) => Some(([v] + more, rest'))
        case None => None
      else None
  }

  /** One or more members separated by commas, and the closing brace. */
  function ParseMembers(s: string): (r: Option<(Entries, string)>)
    ensures r.Some? ==> |r.value.1| < |s|
    decreases |s|, 1
  {
    if s == "" || s[0] != '\"' then None
    else
      match ParseChars(s[1..])
      case None => None
      case Some((k, afterKey)) =>
        if afterKey == "" || afterKey[0] != ':' then None
        else
          match ParseValue(afterKey[1..])
          case None => None
          case Some((v, rest)) =>
            if rest == "" then None
            else if rest[0] == '}' then Some(([Entry(k, v)], rest[1..]))
            else if rest[0] == ',' then
              match ParseMembers(rest[1..])
              case Some((more, rest')) => Some(([Entry(k, v)] + more, rest'))
              case None => None
            else None
  }

  function Parse(text: string): Option<Value> {
    match ParseValue(text)
    case Some((v, rest)) => if rest == "" then Some(v) else None
    case None => None
  }
}

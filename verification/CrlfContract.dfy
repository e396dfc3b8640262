/**
 The byte contract of Windows command files: the indexed scan of scripts/package_step022cr3.py,
 the replace-based check of scripts/run_step001_acceptance.py, and the language both are about.
 */
module CrlfContract {
  import opened Common

  type byte = b: int | 0 <= b < 256
  type Bytes = seq<byte>

  const CR: byte := 13
  const LF: byte := 10
  const CRLF: Bytes := [CR, LF]

  predicate BareLf(data: Bytes, i: nat) {
    i < |data| && data[i] == LF && (i == 0 || data[i - 1] != CR)
  }

  predicate BareCr(data: Bytes, i: nat) {
    i < |data| && data[i] == CR && (i + 1 >= |data| || data[i + 1] != LF)
  }

  /** Every line break is a CRLF pair. */
  ghost predicate Clean(data: Bytes) {
    forall i: nat :: !BareLf(data, i) && !BareCr(data, i)
  }

  // ----- deleting the pairs

  /** Python's `data.replace(b"\r\n", b"")`. */
  function RemoveCrlf(data: Bytes): Bytes {
    if |data| < 2 then data
    else if data[0] == CR && data[1] == LF then RemoveCrlf(data[2..])
    else [data[0]] + RemoveCrlf(data[1..])
  }

  /** The offences of a string are those of its first piece and, shifted, those of the rest. */
  lemma OffencesShift(data: Bytes, k: nat, i: nat)
    requires k == (if |data| >= 2 && data[0] == CR && data[1] == LF then 2 else 1) && k <= |data|
    ensures BareLf(data[k..], i) <==> BareLf(data, i + k)
    ensures BareCr(data[k..], i) <==> BareCr(data, i + k)
  {
  }

  lemma {:induction false} RemainderIff(data: Bytes)
    ensures LF in RemoveCrlf(data) <==> exists i: nat :: BareLf(data, i)
    ensures CR in RemoveCrlf(data) <==> exists i: nat :: BareCr(data, i)
  {
    if data != [] {
      var k := if |data| >= 2 && data[0] == CR && data[1] == LF then 2 else 1;
      var rest := data[k..];
      RemainderIff(rest);
      assert |data| == 1 ==> RemoveCrlf(rest) == [] && RemoveCrlf(data) == [data[0]] + RemoveCrlf(rest);
      forall i: nat
        ensures BareLf(rest, i) <==> BareLf(data, i + k)
        ensures BareCr(rest, i) <==> BareCr(data, i + k)
      {
        OffencesShift(data, k, i);
      }
      if i: nat :| BareLf(rest, i) {
        assert BareLf(data, i + k);
      }
      if i: nat :| BareCr(rest, i) {
        assert BareCr(data, i + k);
      }
      forall i: nat | BareLf(data, i)
        ensures LF in RemoveCrlf(data)
      {
        if i >= k {
          assert BareLf(rest, i - k);
        }
      }
      forall i: nat | BareCr(data, i)
        ensures CR in RemoveCrlf(data)
      {
        if i >= k {
          assert BareCr(rest, i - k);
        }
      }
      assert k == 1 ==> BareLf(data, 0) == (data[0] == LF) && BareCr(data, 0) == (data[0] == CR);
    }
  }

  /** The scan accepts exactly the strings in which deleting all pairs leaves neither CR nor LF. */
  lemma CleanIffNothingRemains(data: Bytes)
    ensures Clean(data) <==> CR !in RemoveCrlf(data) && LF !in RemoveCrlf(data)
  {
    RemainderIff(data);
  }

  predicate FoundAt(data: Bytes, token: Bytes, i: nat) {
    i + |token| <= |data| && data[i..i + |token|] == token
  }

  predicate Contains(data: Bytes, token: Bytes) {
    exists i :: 0 <= i <= |data| && FoundAt(data, token, i)
  }

  /** The launcher check: a pair is present and no LF is left after deleting the pairs. */
  predicate LauncherCheck(data: Bytes) {
    Contains(data, CRLF) && LF !in RemoveCrlf(data)
  }

  /** The two checks differ only by bare CRs, which the launcher check lets through. */
  lemma LauncherMissesBareCr(data: Bytes)
    ensures Contains(data, CRLF) && Clean(data) <==> LauncherCheck(data) && forall i: nat :: !BareCr(data, i)
  {
    RemainderIff(data);
  }

  lemma LauncherAcceptsBareCr()
    ensures LauncherCheck([CR, CR, LF]) && BareCr([CR, CR, LF], 0)
  {
    var data: Bytes := [CR, CR, LF];
    assert data[1..1 + |CRLF|] == CRLF;
    assert FoundAt(data, CRLF, 1);
    RemainderIff(data);
  }

  // ----- lines

  /** No line break byte at all. */
  predicate Plain(line: Bytes) {
    CR !in line && LF !in line
  }

  ghost predicate AllPlain(lines: seq<Bytes>) {
    forall k :: 0 <= k < |lines| ==> Plain(lines[k])
  }

  function Join(lines: seq<Bytes>): Bytes
    requires lines != []
  {
    if |lines| == 1 then lines[0] else lines[0] + CRLF + Join(lines[1..])
  }

  /** The pieces between CRLF pairs. */
  function Split(data: Bytes): (lines: seq<Bytes>)
    ensures lines != []
  {
    if |data| < 2 then [data]
    else if data[0] == CR && data[1] == LF then [[]] + Split(data[2..])
    else
      var lines := Split(data[1..]);
      [[data[0]] + lines[0]] + lines[1..]
  }

  lemma JoinEmptyLine(lines: seq<Bytes>)
    requires lines != []
    ensures Join([[]] + lines) == CRLF + Join(lines)
  {
    assert ([[]] + lines)[1..] == lines;
    assert [] + CRLF == CRLF;
  }

  lemma JoinLongerLine(b: byte, lines: seq<Bytes>)
    requires lines != []
    ensures Join([[b] + lines[0]] + lines[1..]) == [b] + Join(lines)
  {
    var longer := [[b] + lines[0]] + lines[1..];
    assert longer[1..] == lines[1..];
  }

  lemma {:induction false} JoinSplit(data: Bytes)
    ensures Join(Split(data)) == data
  {
    if |data| < 2 {
    } else if data[0] == CR && data[1] == LF {
      var lines := Split(data[2..]);
      JoinSplit(data[2..]);
      assert Split(data) == [[]] + lines;
      hide Split;
      JoinEmptyLine(lines);
      assert data == CRLF + data[2..];
    } else {
      JoinSplit(data[1..]);
      var lines := Split(data[1..]);
      assert Split(data) == [[data[0]] + lines[0]] + lines[1..];
      hide Split;
      JoinLongerLine(data[0], lines);
      assert data == [data[0]] + data[1..];
    }
  }

  /** The pieces are free of breaks exactly when deleting the pairs leaves none. */
  lemma {:induction false} SplitPlainIff(data: Bytes)
    ensures AllPlain(Split(data)) <==> Plain(RemoveCrlf(data))
  {
    if |data| < 2 {
      assert Split(data)[0] == data;
    } else if data[0] == CR && data[1] == LF {
      SplitPlainIff(data[2..]);
      var lines := Split(data[2..]);
      assert Split(data) == [[]] + lines;
      assert forall k :: 0 <= k < |lines| ==> Split(data)[k + 1] == lines[k];
    } else {
      SplitPlainIff(data[1..]);
      var lines := Split(data[1..]);
      assert Split(data)[0] == [data[0]] + lines[0];
      assert forall k :: 1 <= k < |lines| ==> Split(data)[k] == lines[k];
      assert Plain(Split(data)[0]) <==> data[0] != CR && data[0] != LF && Plain(lines[0]);
      assert AllPlain(Split(data)) <==> Plain([data[0]]) && AllPlain(lines);
    }
  }

  lemma SplitCons(b: byte, data: Bytes)
    requires data == [] || !(b == CR && data[0] == LF)
    ensures Split([b] + data) == [[b] + Split(data)[0]] + Split(data)[1..]
  {
    var longer := [b] + data;
    assert longer[1..] == data;
    if data == [] {
      assert longer == [b] && [b] + data == [b];
    }
  }

  lemma {:induction false} SplitPrefix(line: Bytes, rest: Bytes)
    requires Plain(line) && (rest == [] || CRLF <= rest)
    ensures Split(line + rest) == if rest == [] then [line] else [line] + Split(rest[2..])
  {
    if line == [] {
      assert line + rest == rest;
    } else {
      hide Split;
      SplitPrefix(line[1..], rest);
      SplitCons(line[0], line[1..] + rest);
      assert line == [line[0]] + line[1..];
      assert line + rest == [line[0]] + (line[1..] + rest);
      assert Split(line[1..] + rest)[0] == line[1..];
    }
  }

  /** The decomposition into lines is unique. */
  lemma {:induction false} SplitJoin(lines: seq<Bytes>)
    requires lines != [] && AllPlain(lines)
    ensures Split(Join(lines)) == lines
  {
    if |lines| == 1 {
      SplitPrefix(lines[0], []);
      assert lines[0] + [] == lines[0];
    } else {
      SplitJoin(lines[1..]);
      var rest := CRLF + Join(lines[1..]);
      assert Join(lines) == lines[0] + rest;
      SplitPrefix(lines[0], rest);
      assert rest[2..] == Join(lines[1..]);
    }
  }

  /** A string is clean exactly when it is break-free lines joined by CRLF, and then in one way only. */
  lemma CleanIffLines(data: Bytes)
    ensures Clean(data) <==>
            exists lines: seq<Bytes> :: lines != [] && AllPlain(lines) && Join(lines) == data
    ensures forall lines: seq<Bytes> :: lines != [] && AllPlain(lines) && Join(lines) == data ==>
              lines == Split(data)
  {
    forall lines: seq<Bytes> | lines != [] && AllPlain(lines) && Join(lines) == data
      ensures lines == Split(data)
    {
      SplitJoin(lines);
    }
    CleanIffNothingRemains(data);
    SplitPlainIff(data);
    JoinSplit(data);
  }

  // ----- the scan and the whole contract

  datatype Defect =
    | TooSmall(length: nat)
    | NonAscii
    | NoCrlf
    | BareLfAt(index: nat)
    | BareCrAt(index: nat)
    | RootMissing
    | ExternalRootForbidden
    | CommandMissing(token: Bytes)
    | PowershellDependency

  /** The indexed loop: the reported index is the least offending position. */
  method Scan(data: Bytes) returns (defect: Option<Defect>)
    ensures defect.None? <==> Clean(data)
    ensures defect.Some? ==>
              && (defect.value.BareLfAt? || defect.value.BareCrAt?)
              && (defect.value.BareLfAt? <==> BareLf(data, defect.value.index))
              && (defect.value.BareCrAt? <==> BareCr(data, defect.value.index))
              && forall i: nat :: i < defect.value.index ==> !BareLf(data, i) && !BareCr(data, i)
  {
    for i := 0 to |data|
      invariant forall k: nat :: k < i ==> !BareLf(data, k) && !BareCr(data, k)
    {
      if BareLf(data, i) {
        return Some(BareLfAt(i));
      }
      if BareCr(data, i) {
        return Some(BareCrAt(i));
      }
    }
    return None;
  }

  function Ascii(s: string): (r: Bytes)
    requires forall i :: 0 <= i < |s| ==> s[i] < 128 as char
    ensures |r| == |s|
  {
    seq(|s|, i requires 0 <= i < |s| => s[i] as int)
  }

  function LowerByte(b: byte): byte {
    if 65 <= b <= 90 then b + 32 else b
  }

  /** Python's `bytes.lower()`. */
  function Lower(data: Bytes): (low: Bytes)
    ensures |low| == |data| && forall i :: 0 <= i < |data| ==> low[i] == LowerByte(data[i])
  {
    seq(|data|, i requires 0 <= i < |data| => LowerByte(data[i]))
  }

  const ROOT_TOKEN := Ascii("cd /d \"%~dp0\"")
  const EXTERNAL_ROOT := Ascii("OpenRillRoot")
  const INSTALL := Ascii("call pnpm install --frozen-lockfile")
  const LIVE := Ascii("call pnpm mattermost:testbed:live")
  const POWERSHELL := Ascii("powershell")
  const LIVE_LAUNCHER := "start-and-run-step022c-live.cmd"

  /** Every clause of the contract. */
  ghost predicate Valid(data: Bytes, name: string) {
    && |data| >= 64 && (forall b :: b in data ==> b < 128)
    && Contains(data, CRLF) && Clean(data)
    && Contains(data, ROOT_TOKEN) && !Contains(data, EXTERNAL_ROOT)
    && (name == LIVE_LAUNCHER ==>
          Contains(data, INSTALL) && Contains(data, LIVE) && !Contains(Lower(data), POWERSHELL))
  }

  /** The reported defect is really there. */
  ghost predicate Genuine(data: Bytes, name: string, defect: Defect) {
    match defect
    case TooSmall(length) => length == |data| < 64
    case NonAscii => exists b :: b in data && b >= 128
    case NoCrlf => !Contains(data, CRLF)
    case BareLfAt(i) => BareLf(data, i) && forall k: nat :: k < i ==> !BareLf(data, k) && !BareCr(data, k)
    case BareCrAt(i) => BareCr(data, i) && forall k: nat :: k < i ==> !BareLf(data, k) && !BareCr(data, k)
    case RootMissing => Clean(data) && !Contains(data, ROOT_TOKEN)
    case ExternalRootForbidden => Clean(data) && Contains(data, EXTERNAL_ROOT)
    case CommandMissing(token) => name == LIVE_LAUNCHER && token in {INSTALL, LIVE} && !Contains(data, token)
    case PowershellDependency => name == LIVE_LAUNCHER && Contains(Lower(data), POWERSHELL)
  }

  /** `valid_cmd`. A string it accepts passes the launcher check too. */
  method ValidCmd(data: Bytes, name: string) returns (defect: Option<Defect>)
    ensures defect.None? <==> Valid(data, name)
    ensures defect.Some? ==> Genuine(data, name, defect.value)
    ensures defect.None? ==> LauncherCheck(data)
  {
    if |data| < 64 {
      return Some(TooSmall(|data|));
    }
    if exists b :: b in data && b >= 128 {
      return Some(NonAscii);
    }
    if !Contains(data, CRLF) {
      return Some(NoCrlf);
    }
    defect := Scan(data);
    if defect.Some? {
      return;
    }
    if !Contains(data, ROOT_TOKEN) {
      return Some(RootMissing);
    }
    if Contains(data, EXTERNAL_ROOT) {
      return Some(ExternalRootForbidden);
    }
    if name == LIVE_LAUNCHER {
      if !Contains(data, INSTALL) {
        return Some(CommandMissing(INSTALL));
      }
      if !Contains(data, LIVE) {
        return Some(CommandMissing(LIVE));
      }
      if Contains(Lower(data), POWERSHELL) {
        return Some(PowershellDependency);
      }
    }
    LauncherMissesBareCr(data);
    return None;
  }

  // ----- tokens

  /** A token is contained exactly when it stands somewhere between two other parts. */
  lemma ContainsIff(data: Bytes, token: Bytes)
    ensures Contains(data, token) <==> exists before: Bytes, after: Bytes :: data == before + token + after
  {
    if i :| 0 <= i <= |data| && FoundAt(data, token, i) {
      var before, after := data[..i], data[i + |token|..];
      assert data == before + token + after;
    }
    if before: Bytes, after: Bytes :| data == before + token + after {
      assert data[|before|..|before| + |token|] == token;
      assert FoundAt(data, token, |before|);
    }
  }

  /** The same byte, or the same letter in two cases. */
  predicate SameLetter(a: byte, b: byte) {
    a == b || (65 <= a <= 90 && b == a + 32) || (65 <= b <= 90 && a == b + 32)
  }

  ghost predicate SameLetters(s: Bytes, t: Bytes) {
    |s| == |t| && forall i :: 0 <= i < |s| ==> SameLetter(s[i], t[i])
  }

  /** Lowering forgets the case of letters and nothing else, and leaves no capital. */
  lemma LowerForgetsCase(s: Bytes, t: Bytes)
    ensures Lower(s) == Lower(t) <==> SameLetters(s, t)
    ensures |Lower(s)| == |s| && forall b :: b in Lower(s) ==> !(65 <= b <= 90)
    ensures (forall b :: b in s ==> !(65 <= b <= 90)) ==> Lower(s) == s
  {
    hide Lower;
    if SameLetters(s, t) {
      assert Lower(s) == Lower(t);
    }
    if Lower(s) == Lower(t) {
      assert forall i :: 0 <= i < |s| ==> Lower(s)[i] == Lower(t)[i];
    }
    if forall b :: b in s ==> !(65 <= b <= 90) {
      assert forall i :: 0 <= i < |s| ==> s[i] in s;
      assert Lower(s) == s;
    }
  }

  /** The token stands at `i`, its letters in any case. */
  ghost predicate InSomeCase(data: Bytes, token: Bytes, i: nat) {
    i + |token| <= |data| && SameLetters(data[i..i + |token|], token)
  }

  /** The lowered text contains a token without capitals exactly when the text contains it in some case. */
  lemma LowerFindsAnyCase(data: Bytes, token: Bytes)
    requires forall b :: b in token ==> !(65 <= b <= 90)
    ensures Contains(Lower(data), token) <==> exists i :: 0 <= i <= |data| && InSomeCase(data, token, i)
  {
    var low := Lower(data);
    LowerForgetsCase(token, token);
    forall i | 0 <= i <= |data|
      ensures FoundAt(low, token, i) <==> InSomeCase(data, token, i)
    {
      if i + |token| <= |data| {
        var slice := data[i..i + |token|];
        assert Lower(slice) == low[i..i + |token|];
        LowerForgetsCase(slice, token);
      }
    }
    hide Lower, SameLetters, FoundAt, InSomeCase;
    assert |low| == |data| by { LowerForgetsCase(data, data); }
  }
}

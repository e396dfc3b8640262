/**
 Extraction of the first TAP failure from test output: `extract_tap_failure` of
 scripts/run_step010a_acceptance.py and its extended version in scripts/run_step011_acceptance.py.
 */
module TapFailure {
  import opened Common
  import opened Ordering

  const BEGIN := "OPENRILL_TAP_FAILURE_BEGIN"
  const END := "OPENRILL_TAP_FAILURE_END"
  const SUMMARY_LINES := 8
  const REPORT_LIMIT := 20000
  const FALLBACK_LIMIT := 12000

  predicate IsFailure(line: string) {
    "not ok " <= line
  }

  predicate IsSubtest(line: string) {
    "# Subtest:" <= line
  }

  predicate IsError(line: string) {
    "# Error:" <= line
  }

  predicate IsSummary(line: string) {
    "1.." <= line || "# tests " <= line || "# pass " <= line || "# fail " <= line || "# cancelled " <= line
    || "# skipped " <= line || "# todo " <= line || "# duration_ms " <= line
  }

  /** Python's `s[-n:]`. */
  function Last<T>(s: seq<T>, n: nat): seq<T>
    requires n > 0
  {
    if |s| <= n then s else s[|s| - n..]
  }

  /** `"\n".join(lines)`. */
  function JoinLines(lines: seq<string>): string {
    if lines == [] then "" else if |lines| == 1 then lines[0] else lines[0] + "\n" + JoinLines(lines[1..])
  }

  // ----- what the extraction computes

  predicate HasFailure(lines: seq<string>) {
    exists i :: 0 <= i < |lines| && IsFailure(lines[i])
  }

  /** The first failure line. */
  function FailureIndex(lines: seq<string>): (f: nat)
    requires HasFailure(lines)
    ensures f < |lines| && IsFailure(lines[f]) && forall i :: 0 <= i < f ==> !IsFailure(lines[i])
  {
    if IsFailure(lines[0]) then 0 else
      assert HasFailure(lines[1..]) by {
        var i :| 0 <= i < |lines| && IsFailure(lines[i]);
        assert lines[1..][i - 1] == lines[i];
      }
      var f := 1 + FailureIndex(lines[1..]);
      assert forall i :: 1 <= i < f ==> lines[i] == lines[1..][i - 1];
      f
  }

  /** The block starts at the failure, or at the subtest line directly before it. */
  function BlockStart(lines: seq<string>, f: nat): (start: nat)
    requires f < |lines|
    ensures start <= f
  {
    if f > 0 && IsSubtest(lines[f - 1]) then f - 1 else f
  }

  /** The first subtest line from `i` on, or the end of the output. */
  function NextSubtest(lines: seq<string>, i: nat): (end: nat)
    requires i <= |lines|
    ensures i <= end <= |lines| && (end < |lines| ==> IsSubtest(lines[end]))
    ensures forall k :: i <= k < end ==> !IsSubtest(lines[k])
    decreases |lines| - i
  {
    if i == |lines| || IsSubtest(lines[i]) then i else NextSubtest(lines, i + 1)
  }

  /** Back from `i` over all directly preceding error lines. */
  function ErrorsBack(lines: seq<string>, i: nat): (start: nat)
    requires i <= |lines|
    ensures start <= i && (start > 0 ==> !IsError(lines[start - 1]))
    ensures forall k :: start <= k < i ==> IsError(lines[k])
  {
    if i > 0 && IsError(lines[i - 1]) then ErrorsBack(lines, i - 1) else i
  }

  function Summary(lines: seq<string>): seq<string> {
    Last(Filter(IsSummary, lines), SUMMARY_LINES)
  }

  function BlockAt(lines: seq<string>, f: nat): seq<string>
    requires f < |lines|
  {
    lines[BlockStart(lines, f)..NextSubtest(lines, f + 1)]
  }

  function ExtendedBlockAt(lines: seq<string>, f: nat): seq<string>
    requires f < |lines|
  {
    lines[ErrorsBack(lines, BlockStart(lines, f))..NextSubtest(lines, f + 1)]
  }

  function Block(lines: seq<string>): seq<string>
    requires HasFailure(lines)
  {
    BlockAt(lines, FailureIndex(lines))
  }

  function ExtendedBlock(lines: seq<string>): seq<string>
    requires HasFailure(lines)
  {
    ExtendedBlockAt(lines, FailureIndex(lines))
  }

  /** The report before it is cut to its last characters. */
  function FullReport(block: seq<string>, summary: seq<string>): string {
    JoinLines([BEGIN] + block + [END] + summary)
  }

  function Report(block: seq<string>, summary: seq<string>): string {
    Last(FullReport(block, summary), REPORT_LIMIT)
  }

  // ----- the two versions

  /** `t` is `s`, or its last `n` characters when it has more. */
  ghost predicate IsTail(t: string, s: string, n: nat) {
    IsSuffix(t, s) && |t| == if |s| <= n then |s| else n
  }

  lemma LastIsTail(s: string, n: nat)
    requires n > 0
    ensures IsTail(Last(s, n), s, n)
  {
  }

  method FindFailure(lines: seq<string>) returns (f: Option<nat>)
    ensures f.Some? <==> HasFailure(lines)
    ensures f.Some? ==> f.value == FailureIndex(lines)
  {
    for i := 0 to |lines|
      invariant forall k :: 0 <= k < i ==> !IsFailure(lines[k])
    {
      if IsFailure(lines[i]) {
        return Some(i);
      }
    }
    return None;
  }

  method FindEnd(lines: seq<string>, f: nat) returns (end: nat)
    requires f < |lines|
    ensures end == NextSubtest(lines, f + 1)
  {
    end := |lines|;
    for index := f + 1 to |lines|
      invariant end == |lines|
      invariant NextSubtest(lines, f + 1) == NextSubtest(lines, index)
    {
      if IsSubtest(lines[index]) {
        return index;
      }
    }
  }

  /** The original version; `lines` are the lines of `output`. */
  method Extract(output: string, lines: seq<string>) returns (report: string)
    ensures report == if HasFailure(lines) then Report(Block(lines), Summary(lines)) else Last(output, FALLBACK_LIMIT)
    ensures HasFailure(lines) ==> IsTail(report, FullReport(Block(lines), Summary(lines)), 20000)
    ensures !HasFailure(lines) ==> IsTail(report, output, 12000)
  {
    hide IsSubtest, IsSummary, HasFailure, FailureIndex, JoinLines, Filter, NextSubtest, Last, IsTail;
    LastIsTail(output, FALLBACK_LIMIT);
    var failure := FindFailure(lines);
    if failure.None? {
      return Last(output, FALLBACK_LIMIT);
    }
    var f := failure.value;
    var start := f;
    if f > 0 && IsSubtest(lines[f - 1]) {
      start := f - 1;
    }
    var end := FindEnd(lines, f);
    var summary := Last(Filter(IsSummary, lines), SUMMARY_LINES);
    LastIsTail(JoinLines([BEGIN] + lines[start..end] + [END] + summary), REPORT_LIMIT);
    return Last(JoinLines([BEGIN] + lines[start..end] + [END] + summary), REPORT_LIMIT);
  }

  /** The extended version also takes the error lines directly before the block. */
  method ExtractExtended(output: string, lines: seq<string>) returns (report: string)
    ensures report == if HasFailure(lines) then Report(ExtendedBlock(lines), Summary(lines)) else Last(output, FALLBACK_LIMIT)
    ensures HasFailure(lines) ==> IsTail(report, FullReport(ExtendedBlock(lines), Summary(lines)), 20000)
    ensures !HasFailure(lines) ==> IsTail(report, output, 12000)
  {
    hide IsSubtest, IsError, IsSummary, HasFailure, FailureIndex, JoinLines, Filter, NextSubtest, Last, IsTail;
    LastIsTail(output, FALLBACK_LIMIT);
    var failure := FindFailure(lines);
    if failure.None? {
      return Last(output, FALLBACK_LIMIT);
    }
    var f := failure.value;
    var start := f;
    if start > 0 && IsSubtest(lines[start - 1]) {
      start := start - 1;
    }
    while start > 0 && IsError(lines[start - 1])
      invariant 0 <= start <= f
      invariant ErrorsBack(lines, start) == ErrorsBack(lines, BlockStart(lines, f))
    {
      start := start - 1;
    }
    var end := FindEnd(lines, f);
    var summary := Last(Filter(IsSummary, lines), SUMMARY_LINES);
    LastIsTail(JoinLines([BEGIN] + lines[start..end] + [END] + summary), REPORT_LIMIT);
    return Last(JoinLines([BEGIN] + lines[start..end] + [END] + summary), REPORT_LIMIT);
  }

  // ----- the extended version refines the original

  /**
   Before truncation the extended block is the original block behind the maximal run of error
   lines directly before it.
   */
  lemma ExtendedRefines(lines: seq<string>) returns (errors: seq<string>, from: nat)
    requires HasFailure(lines)
    ensures ExtendedBlock(lines) == errors + Block(lines)
    ensures |errors| <= from <= |lines| && errors == lines[from - |errors|..from] && Block(lines) <= lines[from..]
    ensures forall e :: e in errors ==> IsError(e)
    ensures from > |errors| ==> !IsError(lines[from - |errors| - 1])
  {
    hide IsSubtest, IsError, HasFailure, NextSubtest, FailureIndex, BlockStart, ErrorsBack;
    var f := FailureIndex(lines);
    from := BlockStart(lines, f);
    var start := ErrorsBack(lines, from);
    errors := lines[start..from];
    var end := NextSubtest(lines, f + 1);
    assert lines[start..end] == errors + lines[from..end];
    assert lines[from..end] == lines[from..][..end - from];
  }

  // ----- what the report is about

  /** The block from `start` to `end` is the first failure `f` with the subtest line before it, up to the next subtest. */
  ghost predicate IsBlock(lines: seq<string>, start: nat, f: nat, end: nat) {
    && start <= f < end <= |lines|
    && "not ok " <= lines[f] && (forall i :: 0 <= i < f ==> !("not ok " <= lines[i]))
    && (if f > 0 && "# Subtest:" <= lines[f - 1] then start + 1 == f else start == f)
    && (forall i :: f < i < end ==> !("# Subtest:" <= lines[i]))
    && (end < |lines| ==> "# Subtest:" <= lines[end])
  }

  lemma BlockIsTheFailure(lines: seq<string>) returns (start: nat, f: nat, end: nat)
    requires HasFailure(lines)
    ensures IsBlock(lines, start, f, end) && Block(lines) == lines[start..end]
  {
    f := FailureIndex(lines);
    start, end := BlockStart(lines, f), NextSubtest(lines, f + 1);
  }

  /** There is one such block. */
  lemma BlockIsUnique(lines: seq<string>, start: nat, f: nat, end: nat, start': nat, f': nat, end': nat)
    requires IsBlock(lines, start, f, end) && IsBlock(lines, start', f', end')
    ensures start == start' && f == f' && end == end'
  {
  }

  /** The summary is the summary lines from some line on: all of them, or exactly eight. */
  lemma {:induction false} SummaryIsLastEight(lines: seq<string>) returns (c: nat)
    ensures c <= |lines| && Summary(lines) == Filter(IsSummary, lines[c..])
    ensures |Summary(lines)| <= 8 && (|Summary(lines)| < 8 ==> Summary(lines) == Filter(IsSummary, lines))
  {
    var all := Filter(IsSummary, lines);
    hide IsSummary;
    if |all| <= 8 {
      c := 0;
      assert lines[0..] == lines;
    } else {
      var rest := lines[1..];
      c := SummaryIsLastEight(rest);
      assert Summary(rest) == Summary(lines);
      assert lines[1..][c..] == lines[c + 1..];
      c := c + 1;
    }
  }

  /** The pieces between line feeds. */
  function Pieces(s: string): (p: seq<string>)
    ensures p != []
  {
    if s == "" then [""]
    else
      var p := Pieces(s[1..]);
      if s[0] == '\n' then [""] + p else [[s[0]] + p[0]] + p[1..]
  }

  lemma {:induction false} PiecesAfterLine(line: string, rest: string)
    requires '\n' !in line && (rest == "" || rest[0] == '\n')
    ensures Pieces(line + rest) == if rest == "" then [line] else [line] + Pieces(rest[1..])
  {
    hide Pieces;
    if line == "" {
      assert line + rest == rest;
      PiecesBreak(rest);
    } else {
      PiecesAfterLine(line[1..], rest);
      var s := line + rest;
      assert s[1..] == line[1..] + rest && line == [line[0]] + line[1..];
      PiecesCons(s);
      assert Pieces(s[1..])[0] == line[1..];
    }
  }

  lemma PiecesBreak(s: string)
    ensures s == "" ==> Pieces(s) == [""]
    ensures s != "" && s[0] == '\n' ==> Pieces(s) == [""] + Pieces(s[1..])
  {
  }

  lemma PiecesCons(s: string)
    requires s != "" && s[0] != '\n'
    ensures Pieces(s) == [[s[0]] + Pieces(s[1..])[0]] + Pieces(s[1..])[1..]
  {
  }

  /** The lines of a joined text are the lines it was joined from. */
  lemma {:induction false} PiecesOfJoin(lines: seq<string>)
    requires lines != [] && forall i :: 0 <= i < |lines| ==> '\n' !in lines[i]
    ensures Pieces(JoinLines(lines)) == lines
  {
    if |lines| == 1 {
      PiecesAfterLine(lines[0], "");
      assert lines[0] + "" == lines[0];
    } else {
      var rest := JoinLines(lines[1..]);
      PiecesOfJoin(lines[1..]);
      PiecesAfterLine(lines[0], "\n" + rest);
      assert lines[0] + "\n" + rest == lines[0] + ("\n" + rest);
      assert ("\n" + rest)[1..] == rest;
      assert lines == [lines[0]] + lines[1..];
    }
  }

  /** Before the cut, the report read line by line: the markers around the block of the first failure, then the summary. */
  lemma ReportLines(block: seq<string>, summary: seq<string>)
    requires forall i :: 0 <= i < |block| ==> '\n' !in block[i]
    requires forall i :: 0 <= i < |summary| ==> '\n' !in summary[i]
    ensures Pieces(FullReport(block, summary)) == ["OPENRILL_TAP_FAILURE_BEGIN"] + block + ["OPENRILL_TAP_FAILURE_END"] + summary
  {
    assert '\n' !in BEGIN && '\n' !in END;
    hide JoinLines, Pieces;
    PiecesOfJoin([BEGIN] + block + [END] + summary);
  }

  // ----- what survives the cut to the last characters

  predicate IsSuffix(t: string, s: string) {
    |t| <= |s| && s[|s| - |t|..] == t
  }

  /** The report from the first line of the block on, without the begin marker. */
  function Body(block: seq<string>, summary: seq<string>): string {
    JoinLines(block + [END] + summary)
  }

  /** The report from the failure line on; both versions end this way before the cut. */
  function FromFailure(lines: seq<string>): string
    requires HasFailure(lines)
  {
    var f := FailureIndex(lines);
    JoinLines(lines[f..NextSubtest(lines, f + 1)] + [END] + Summary(lines))
  }

  lemma JoinCons(x: string, lines: seq<string>)
    requires lines != []
    ensures JoinLines([x] + lines) == x + "\n" + JoinLines(lines)
  {
    assert ([x] + lines)[1..] == lines;
  }

  /** The text of the last lines is the end of the text of all lines. */
  lemma {:induction false} JoinSuffix(a: seq<string>, b: seq<string>)
    requires b != []
    ensures IsSuffix(JoinLines(b), JoinLines(a + b))
  {
    if a == [] {
      assert a + b == b;
    } else {
      JoinSuffix(a[1..], b);
      var rest := a[1..] + b;
      assert a + b == [a[0]] + rest;
      JoinCons(a[0], rest);
      SuffixOfConcat(JoinLines(b), a[0] + "\n", JoinLines(rest));
    }
  }

  lemma SuffixOfConcat(t: string, x: string, s: string)
    requires IsSuffix(t, s)
    ensures IsSuffix(t, x + s)
  {
  }

  lemma CutKeepsSuffixIff(t: string, s: string)
    requires IsSuffix(t, s)
    ensures IsSuffix(t, Last(s, REPORT_LIMIT)) <==> |t| <= REPORT_LIMIT
  {
  }

  lemma EndsWith(block: seq<string>, k: nat, summary: seq<string>)
    requires k <= |block|
    ensures IsSuffix(JoinLines(block[k..] + [END] + summary), FullReport(block, summary))
  {
    hide JoinLines, IsSuffix;
    var tail := block[k..] + [END] + summary;
    assert [BEGIN] + block + [END] + summary == ([BEGIN] + block[..k]) + tail;
    JoinSuffix([BEGIN] + block[..k], tail);
  }

  /** A report keeps all of its block exactly when the text from the block on fits, with or without the begin marker. */
  lemma ReportKeepsBlockIff(block: seq<string>, summary: seq<string>)
    ensures IsSuffix(Body(block, summary), Report(block, summary)) <==> |Body(block, summary)| <= REPORT_LIMIT
  {
    EndsWith(block, 0, summary);
    assert block[0..] == block;
    CutKeepsSuffixIff(Body(block, summary), FullReport(block, summary));
  }

  /**
   The failure line and what follows it survive in either version exactly when the text from the
   failure line on fits; the error lines of the extended version make no difference to that.
   */
  lemma FailureSurvivesIff(lines: seq<string>)
    requires HasFailure(lines)
    ensures lines[FailureIndex(lines)] <= FromFailure(lines)
    ensures IsSuffix(FromFailure(lines), Report(Block(lines), Summary(lines))) <==> |FromFailure(lines)| <= REPORT_LIMIT
    ensures IsSuffix(FromFailure(lines), Report(ExtendedBlock(lines), Summary(lines))) <==> |FromFailure(lines)| <= REPORT_LIMIT
  {
    hide IsSubtest, IsError, HasFailure, FailureIndex, BlockStart, ErrorsBack, NextSubtest, Summary, IsSuffix;
    var f := FailureIndex(lines);
    var start, back, end := BlockStart(lines, f), ErrorsBack(lines, BlockStart(lines, f)), NextSubtest(lines, f + 1);
    var summary := Summary(lines);
    assert lines[start..end][f - start..] == lines[f..end] && lines[back..end][f - back..] == lines[f..end];
    EndsWith(Block(lines), f - start, summary);
    EndsWith(ExtendedBlock(lines), f - back, summary);
    CutKeepsSuffixIff(FromFailure(lines), FullReport(Block(lines), summary));
    CutKeepsSuffixIff(FromFailure(lines), FullReport(ExtendedBlock(lines), summary));
    StartsWithFirst(lines[f..end] + [END] + summary);
    assert (lines[f..end] + [END] + summary)[0] == lines[f];
  }

  lemma StartsWithFirst(lines: seq<string>)
    requires lines != []
    ensures lines[0] <= JoinLines(lines)
  {
  }

  /** A failure line and one line the extraction does not look at: both blocks are the two lines. */
  lemma TwoLineBlock(long: string)
    requires !IsFailure(long) && !IsSummary(long) && !IsSubtest(long)
    ensures var lines := ["not ok 1", long];
            && HasFailure(lines) && FailureIndex(lines) == 0 && Summary(lines) == []
            && Block(lines) == lines && ExtendedBlock(lines) == lines
  {
    var lines := ["not ok 1", long];
    assert lines[0][0] == 'n' && IsFailure(lines[0]) && !IsSummary(lines[0]);
    hide IsFailure, IsSummary, IsSubtest, IsError;
    assert FailureIndex(lines) == 0;
    assert lines[1..] == [long] && Unnoticed([long]);
    NothingKept(lines[1..]);
    assert NextSubtest(lines, 1) == 2;
  }

  /** A line that fills the report shuts out everything before it. */
  lemma LongLineFillsReport(first: string, long: string)
    requires |long| == REPORT_LIMIT
    ensures forall c :: c in Report([first, long], []) ==> c in long || c in "\n" + END
  {
    hide JoinLines, IsSuffix;
    var tail := [long] + [END];
    JoinSuffix([BEGIN, first], tail);
    assert [BEGIN] + [first, long] + [END] + [] == [BEGIN, first] + tail;
    JoinCons(long, [END]);
    JoinOne(END);
    LastOfSuffix(long + "\n" + END, FullReport([first, long], []));
  }

  lemma JoinOne(x: string)
    ensures JoinLines([x]) == x
  {
  }

  lemma LongLine() returns (long: string)
    ensures |long| == REPORT_LIMIT && forall c :: c in long ==> c == 'x'
    ensures !IsFailure(long) && !IsSummary(long) && !IsSubtest(long)
  {
    long := seq(REPORT_LIMIT, i => 'x');
    assert long[0] == 'x';
  }

  /** One failure followed by a line of twenty thousand characters: nothing of the failure line is left in either report. */
  lemma LongBlockLosesFailure() returns (lines: seq<string>)
    ensures HasFailure(lines)
    ensures forall c :: c in lines[FailureIndex(lines)] ==> c !in Report(Block(lines), Summary(lines))
    ensures forall c :: c in lines[FailureIndex(lines)] ==> c !in Report(ExtendedBlock(lines), Summary(lines))
  {
    assert forall c :: c in "not ok 1" ==> c !in "x\n" && c !in END;
    hide *;
    var long := LongLine();
    lines := ["not ok 1", long];
    TwoLineBlock(long);
    LongLineFillsReport(lines[0], long);
  }

  /** What is cut off a long text comes before its long suffix. */
  lemma LastOfSuffix(t: string, s: string)
    requires IsSuffix(t, s) && |t| >= REPORT_LIMIT
    ensures forall c :: c in Last(s, REPORT_LIMIT) ==> c in t
  {
    var cut := Last(s, REPORT_LIMIT);
    forall i | 0 <= i < |cut|
      ensures cut[i] in t
    {
      assert cut[i] == s[|s| - REPORT_LIMIT + i];
      assert s[|s| - |t|..][|t| - REPORT_LIMIT + i] == cut[i];
    }
  }

  // ----- the position of the failure in the suite does not matter

  /** Lines that may come before without being noticed. */
  ghost predicate Unnoticed(before: seq<string>) {
    forall i :: 0 <= i < |before| ==> !IsFailure(before[i]) && !IsSummary(before[i])
  }

  lemma SummaryShifts(before: seq<string>, lines: seq<string>)
    requires Unnoticed(before)
    ensures Summary(before + lines) == Summary(lines)
  {
    FilterConcat(IsSummary, before, lines);
    NothingKept(before);
  }

  lemma {:induction false} NothingKept(lines: seq<string>)
    requires Unnoticed(lines)
    ensures Filter(IsSummary, lines) == []
  {
    if lines != [] {
      NothingKept(lines[1..]);
    }
  }

  lemma FailureShifts(before: seq<string>, lines: seq<string>)
    requires HasFailure(lines) && Unnoticed(before)
    ensures HasFailure(before + lines)
    ensures FailureIndex(before + lines) == |before| + FailureIndex(lines)
  {
    var all := before + lines;
    var f := |before| + FailureIndex(lines);
    assert all[f] == lines[FailureIndex(lines)];
    assert HasFailure(all);
    var g := FailureIndex(all);
    assert g >= |before| ==> all[g] == lines[g - |before|];
  }

  lemma {:induction false} SubtestShifts(before: seq<string>, lines: seq<string>, i: nat)
    requires i <= |lines|
    ensures NextSubtest(before + lines, |before| + i) == |before| + NextSubtest(lines, i)
    decreases |lines| - i
  {
    if i < |lines| {
      assert (before + lines)[|before| + i] == lines[i];
      if !IsSubtest(lines[i]) {
        SubtestShifts(before, lines, i + 1);
      }
    }
  }

  lemma {:induction false} ErrorsShift(before: seq<string>, lines: seq<string>, i: nat)
    requires i <= |lines| && (before != [] ==> !IsError(before[|before| - 1]))
    ensures ErrorsBack(before + lines, |before| + i) == |before| + ErrorsBack(lines, i)
  {
    if i > 0 {
      assert (before + lines)[|before| + i - 1] == lines[i - 1];
      if IsError(lines[i - 1]) {
        ErrorsShift(before, lines, i - 1);
      }
    } else if before != [] {
      assert (before + lines)[|before| - 1] == before[|before| - 1];
    }
  }

  lemma StartShifts(before: seq<string>, lines: seq<string>, f: nat)
    requires f < |lines| && (before != [] ==> !IsSubtest(before[|before| - 1]))
    ensures BlockStart(before + lines, |before| + f) == |before| + BlockStart(lines, f)
  {
    if f > 0 {
      assert (before + lines)[|before| + f - 1] == lines[f - 1];
    } else if before != [] {
      assert (before + lines)[|before| - 1] == before[|before| - 1];
    }
  }

  /** A block moves with the lines put before it. */
  lemma BlockShifts(before: seq<string>, lines: seq<string>, f: nat)
    requires f < |lines|
    requires before != [] ==> !IsSubtest(before[|before| - 1])
    ensures BlockAt(before + lines, |before| + f) == BlockAt(lines, f)
  {
    hide IsSubtest;
    StartShifts(before, lines, f);
    SubtestShifts(before, lines, f + 1);
    SliceShifts(before, lines, BlockStart(lines, f), NextSubtest(lines, f + 1));
  }

  lemma ExtendedBlockShifts(before: seq<string>, lines: seq<string>, f: nat)
    requires f < |lines|
    requires before != [] ==> !IsSubtest(before[|before| - 1]) && !IsError(before[|before| - 1])
    ensures ExtendedBlockAt(before + lines, |before| + f) == ExtendedBlockAt(lines, f)
  {
    hide IsSubtest, IsError;
    StartShifts(before, lines, f);
    ErrorsShift(before, lines, BlockStart(lines, f));
    SubtestShifts(before, lines, f + 1);
    SliceShifts(before, lines, ErrorsBack(lines, BlockStart(lines, f)), NextSubtest(lines, f + 1));
  }

  /** The original version reports the same failure wherever it stands in the suite output. */
  lemma PositionIndependent(before: seq<string>, lines: seq<string>)
    requires HasFailure(lines) && Unnoticed(before)
    requires before != [] ==> !IsSubtest(before[|before| - 1])
    ensures HasFailure(before + lines)
    ensures Report(Block(before + lines), Summary(before + lines)) == Report(Block(lines), Summary(lines))
  {
    hide BlockAt, HasFailure, FailureIndex, Unnoticed, IsSubtest, Summary, Report;
    SummaryShifts(before, lines);
    FailureShifts(before, lines);
    BlockShifts(before, lines, FailureIndex(lines));
  }

  /** So does the extended version, if no error line comes directly before. */
  lemma ExtendedPositionIndependent(before: seq<string>, lines: seq<string>)
    requires HasFailure(lines) && Unnoticed(before)
    requires before != [] ==> !IsSubtest(before[|before| - 1]) && !IsError(before[|before| - 1])
    ensures HasFailure(before + lines)
    ensures Report(ExtendedBlock(before + lines), Summary(before + lines)) == Report(ExtendedBlock(lines), Summary(lines))
  {
    hide ExtendedBlockAt, HasFailure, FailureIndex, Unnoticed, IsSubtest, IsError, Summary, Report;
    SummaryShifts(before, lines);
    FailureShifts(before, lines);
    ExtendedBlockShifts(before, lines, FailureIndex(lines));
  }

  lemma SliceShifts(before: seq<string>, lines: seq<string>, i: nat, j: nat)
    requires i <= j <= |lines|
    ensures (before + lines)[|before| + i..|before| + j] == lines[i..j]
  {
  }
}

/**
 * The evaluation driver (apps/ObjectRecognizerEval/main.cpp): the text
 * lines it writes for verified and generated hypotheses, the names of the
 * files it writes, the search for a fresh evaluation directory, and the
 * median of the recognition times.
 *
 * A file is the sequence of its lines, each ended by `std::endl`. How
 * `operator<<` prints a pose entry is the parameter `show`; which
 * evaluation directories exist is the finite set of their indices.
 */
module RecognizerEvaluation {
  import opened Wrappers
  import Text
  import Types
  import Sorting
  import OcclusionEvaluation

  // ---------------------------------------------------------------------
  // Result lines (lines 116-143)
  // ---------------------------------------------------------------------

  /** The text printed for the 16 entries of a pose, row by row. */
  function EntryTexts(pose: Types.Matrix4, show: real -> string): (ts: seq<string>)
    ensures |ts| == 16
  {
    seq(16, i requires 0 <= i < 16 => show(pose[i / 4][i % 4]))
  }

  /**
   * One hypothesis as a line: the model id, a dummy confidence `(-1.):`,
   * then every pose entry followed by a space.
   */
  function HypothesisLine(modelId: string, pose: Types.Matrix4, show: real -> string): string {
    modelId + " (-1.): " + Text.SpaceTerminated(EntryTexts(pose, show))
  }

  /** The nested row and column loops that print one hypothesis (lines 119-123 and 135-139). */
  method WriteHypothesis(modelId: string, pose: Types.Matrix4, show: real -> string) returns (line: string)
    ensures line == HypothesisLine(modelId, pose, show)
  {
    ghost var texts := EntryTexts(pose, show);
    line := modelId + " (-1.): ";
    assert texts[..0] == [];
    for row := 0 to 4
      invariant line == modelId + " (-1.): " + Text.SpaceTerminated(texts[..4 * row])
    {
      for col := 0 to 4
        invariant line == modelId + " (-1.): " + Text.SpaceTerminated(texts[..4 * row + col])
      {
        var text := show(pose[row][col]);
        assert texts[4 * row + col] == text;
        assert texts[..4 * row + col + 1] == texts[..4 * row + col] + [text];
        Text.SpaceTerminatedSnoc(texts[..4 * row + col], text);
        line := line + text + " ";
      }
    }
    assert texts[..16] == texts;
  }

  /** The lines for a list of hypotheses, one each, in order. */
  function Lines(hs: seq<Types.ObjectHypothesis>, show: real -> string): (lines: seq<string>)
    ensures |lines| == |hs|
  {
    seq(|hs|, k requires 0 <= k < |hs| => HypothesisLine(hs[k].modelId, hs[k].transform, show))
  }

  /** The hypotheses of all groups, group after group. */
  function Flatten(groups: seq<Types.ObjectHypothesesGroup>): seq<Types.ObjectHypothesis> {
    if |groups| == 0 then [] else Flatten(groups[..|groups| - 1]) + groups[|groups| - 1].ohs
  }

  /** The number of hypotheses in all groups. */
  function HypothesisCount(groups: seq<Types.ObjectHypothesesGroup>): nat {
    if |groups| == 0 then 0 else HypothesisCount(groups[..|groups| - 1]) + |groups[|groups| - 1].ohs|
  }

  /**
   * The generated hypotheses come group by group: the `k`-th hypothesis of
   * group `g` follows all hypotheses of the groups before it.
   */
  lemma {:induction false} FlattenAt(groups: seq<Types.ObjectHypothesesGroup>, g: nat, k: nat)
    requires g < |groups| && k < |groups[g].ohs|
    ensures |Flatten(groups)| == HypothesisCount(groups)
    ensures HypothesisCount(groups[..g]) + k < |Flatten(groups)|
    ensures Flatten(groups)[HypothesisCount(groups[..g]) + k] == groups[g].ohs[k]
    decreases |groups|
  {
    var front := groups[..|groups| - 1];
    FlattenCount(groups);
    FlattenCount(front);
    if g < |front| {
      assert groups[..g] == front[..g] && groups[g] == front[g];
      FlattenAt(front, g, k);
    } else {
      assert groups[..g] == front;
    }
  }

  lemma {:induction false} FlattenCount(groups: seq<Types.ObjectHypothesesGroup>)
    ensures |Flatten(groups)| == HypothesisCount(groups)
  {
    if |groups| > 0 {
      FlattenCount(groups[..|groups| - 1]);
    }
  }

  /** The file of verified hypotheses (lines 116-125). */
  method WriteVerified(verified: seq<Types.ObjectHypothesis>, show: real -> string) returns (lines: seq<string>)
    ensures lines == Lines(verified, show)
  {
    lines := [];
    for k := 0 to |verified|
      invariant lines == Lines(verified[..k], show)
    {
      var line := WriteHypothesis(verified[k].modelId, verified[k].transform, show);
      assert Lines(verified[..k + 1], show) == Lines(verified[..k], show) + [line];
      lines := lines + [line];
    }
    assert verified[..|verified|] == verified;
  }

  /** The file of generated hypotheses (lines 128-143): every group's hypotheses, in group order. */
  method WriteGenerated(groups: seq<Types.ObjectHypothesesGroup>, show: real -> string) returns (lines: seq<string>)
    ensures lines == Lines(Flatten(groups), show)
  {
    lines := [];
    for g := 0 to |groups|
      invariant lines == Lines(Flatten(groups[..g]), show)
    {
      assert groups[..g + 1][..g] == groups[..g];
      var ohs := groups[g].ohs;
      for k := 0 to |ohs|
        invariant lines == Lines(Flatten(groups[..g]) + ohs[..k], show)
      {
        var line := WriteHypothesis(ohs[k].modelId, ohs[k].transform, show);
        assert Flatten(groups[..g]) + ohs[..k + 1] == (Flatten(groups[..g]) + ohs[..k]) + [ohs[k]];
        assert Lines(Flatten(groups[..g]) + ohs[..k + 1], show) == Lines(Flatten(groups[..g]) + ohs[..k], show) + [line];
        lines := lines + [line];
      }
      assert ohs[..|ohs|] == ohs;
    }
    assert groups[..|groups|] == groups;
  }

  // ---------------------------------------------------------------------
  // Reading a written line back
  // ---------------------------------------------------------------------

  /** The line is the id, the dummy confidence and the entry texts, each followed by a space. */
  lemma LineLayout(modelId: string, texts: seq<string>)
    ensures Text.SpaceTerminated([modelId, "(-1.):"] + texts) == modelId + " (-1.): " + Text.SpaceTerminated(texts)
  {
    var all := [modelId, "(-1.):"] + texts;
    assert all[1..] == ["(-1.):"] + texts;
    assert all[1..][1..] == texts;
    assert " (-1.): " == " " + "(-1.):" + " ";
    assert Text.SpaceTerminated(all) == modelId + " " + ("(-1.):" + " " + Text.SpaceTerminated(texts));
  }

  /** A written line splits into the id, the dummy confidence and the entry texts. */
  lemma LineTokens(modelId: string, pose: Types.Matrix4, show: real -> string)
    requires Text.IsToken(modelId)
    requires forall i :: 0 <= i < 16 ==> Text.IsToken(show(pose[i / 4][i % 4]))
    ensures Text.Tokens(HypothesisLine(modelId, pose, show)) == [modelId, "(-1.):"] + EntryTexts(pose, show)
  {
    var texts := EntryTexts(pose, show);
    var all := [modelId, "(-1.):"] + texts;
    forall k | 0 <= k < |all| ensures Text.IsToken(all[k]) {
      if k == 1 {
        assert Text.IsToken("(-1.):");
      } else if k >= 2 {
        assert all[k] == texts[k - 2] == show(pose[(k - 2) / 4][(k - 2) % 4]);
      }
    }
    Text.TokensOfSpaceTerminated(all);
    LineLayout(modelId, texts);
  }

  /**
   * Round trip between the writer and the reader of the occlusion tool: a
   * line written for a model id without whitespace, whose entries print
   * as tokens that read back as numbers, is read as that model id with
   * each entry's read-back value at its row and column. The dummy
   * confidence is stripped to `-1.`.
   */
  lemma LineRoundTrip(modelId: string, pose: Types.Matrix4, show: real -> string, readNum: string -> Option<real>)
    requires Text.IsToken(modelId)
    requires forall i :: 0 <= i < 16 ==> Text.IsToken(show(pose[i / 4][i % 4])) && readNum(show(pose[i / 4][i % 4])).Some?
    requires readNum("-1.").Some?
    ensures var r := OcclusionEvaluation.ParseLine(HypothesisLine(modelId, pose, show), readNum);
      r.Success? && r.value.0 == modelId && r.value.1.occlusion == 1.0 - readNum("-1.").value &&
      forall i :: 0 <= i < 16 ==> r.value.1.pose[i / 4][i % 4] == readNum(show(pose[i / 4][i % 4])).value
  {
    var line := HypothesisLine(modelId, pose, show);
    LineTokens(modelId, pose, show);
    var ts := Text.Tokens(line);
    OcclusionEvaluation.StripWrapped("-1.");
    assert "(" + "-1." + "):" == "(-1.):";
    assert forall i :: 0 <= i < 16 ==> ts[2 + i] == show(pose[i / 4][i % 4]);
    OcclusionEvaluation.ParseLineFields(line, readNum);
  }

  /** When reading a printed entry gives the entry back, the whole pose comes back. */
  lemma LineRoundTripExact(modelId: string, pose: Types.Matrix4, show: real -> string, readNum: string -> Option<real>)
    requires Text.IsToken(modelId)
    requires forall i :: 0 <= i < 16 ==> Text.IsToken(show(pose[i / 4][i % 4])) && readNum(show(pose[i / 4][i % 4])) == Some(pose[i / 4][i % 4])
    requires readNum("-1.").Some?
    ensures OcclusionEvaluation.ParseLine(HypothesisLine(modelId, pose, show), readNum) ==
      Success((modelId, OcclusionEvaluation.Hypothesis(pose, 1.0 - readNum("-1.").value)))
  {
    LineRoundTrip(modelId, pose, show, readNum);
    var r := OcclusionEvaluation.ParseLine(HypothesisLine(modelId, pose, show), readNum).value.1.pose;
    forall row, col | 0 <= row < 4 && 0 <= col < 4 ensures r[row][col] == pose[row][col] {
      var i := 4 * row + col;
      assert i / 4 == row && i % 4 == col;
    }
    forall row | 0 <= row < 4 ensures r[row] == pose[row] {
      assert |r[row]| == 4 == |pose[row]|;
    }
    assert r == pose;
  }

  // ---------------------------------------------------------------------
  // File names (lines 107-108, 128-129, 170-179)
  // ---------------------------------------------------------------------

  /** The result file of a view: its last `.pcd` becomes `.anno` (line 108). */
  function AnnoName(view: string): string {
    Text.ReplaceLast(view, ".pcd", ".anno")
  }

  /** The generated-hypotheses file beside a result file (line 129). */
  function GeneratedName(outPath: string): string {
    Text.ReplaceLast(outPath, ".anno", ".generated_hyps")
  }

  /**
   * A view `p.pcd` gives the result file `p.anno` and the generated file
   * `p.generated_hyps`, under any directory; the occlusion tool, told to
   * use generated hypotheses, looks for exactly that file.
   */
  lemma OutputNames(dir: string, p: string)
    ensures AnnoName(p + ".pcd") == p + ".anno"
    ensures GeneratedName(dir + AnnoName(p + ".pcd")) == dir + p + ".generated_hyps"
    ensures GeneratedName(dir + AnnoName(p + ".pcd")) == dir + OcclusionEvaluation.RecFileName(p + ".anno", true)
  {
    Text.ReplaceLastOfSuffix(p, ".pcd", ".anno");
    assert dir + (p + ".anno") == (dir + p) + ".anno";
    Text.ReplaceLastOfSuffix(dir + p, ".anno", ".generated_hyps");
    OcclusionEvaluation.RecFileOfAnno(p);
  }

  /** The decimal digits of `n`, as a stream prints an unsigned number. */
  function Decimal(n: nat): (s: string)
    ensures |s| > 0 && forall i :: 0 <= i < |s| ==> '0' <= s[i] <= '9'
  {
    if n < 10 then [('0' as int + n) as char]
    else Decimal(n / 10) + [('0' as int + n % 10) as char]
  }

  /** The number a string of decimal digits denotes. */
  function DigitsValue(s: string): nat
    requires forall i :: 0 <= i < |s| ==> '0' <= s[i] <= '9'
  {
    if |s| == 0 then 0
    else DigitsValue(s[..|s| - 1]) * 10 + (s[|s| - 1] as int - '0' as int)
  }

  /** The digits printed for `n` denote `n`. */
  lemma {:induction false} DecimalValue(n: nat)
    ensures DigitsValue(Decimal(n)) == n
  {
    if n >= 10 {
      var s := Decimal(n);
      assert s[..|s| - 1] == Decimal(n / 10);
      DecimalValue(n / 10);
    }
  }

  /** Different counters give different names. */
  lemma DecimalInjective(m: nat, n: nat)
    requires Decimal(m) == Decimal(n)
    ensures m == n
  {
    DecimalValue(m);
    DecimalValue(n);
  }

  /** The evaluation directory of counter value `k` (line 68). */
  function EvalDirName(outDir: string, k: nat): string {
    outDir + "/" + Decimal(k)
  }

  /** Different indices give different evaluation directories under the same output directory. */
  lemma EvalDirNamesDistinct(outDir: string, j: nat, k: nat)
    requires j != k
    ensures EvalDirName(outDir, j) != EvalDirName(outDir, k)
  {
    if EvalDirName(outDir, j) == EvalDirName(outDir, k) {
      var p := outDir + "/";
      assert EvalDirName(outDir, j)[|p|..] == Decimal(j);
      assert EvalDirName(outDir, k)[|p|..] == Decimal(k);
      DecimalInjective(j, k);
    }
  }

  /**
   * `bf::path::operator/=` on a POSIX system (Boost.Filesystem version 3):
   * an empty `name` leaves the path as it is; otherwise a '/' goes between
   * the two unless `dir` is empty, `dir` already ends in '/', or `name`
   * starts with one.
   */
  function PathAppend(dir: string, name: string): (r: string)
    ensures |r| >= |dir| + |name| && r[..|dir|] == dir && r[|r| - |name|..] == name
    ensures |r| <= |dir| + |name| + 1
  {
    if name == [] then dir
    else if dir != [] && dir[|dir| - 1] != '/' && name[0] != '/' then dir + "/" + name
    else dir + name
  }

  /** Some position of `s` holds two separators in a row. */
  predicate HasDoubleSlash(s: string) {
    exists i :: 0 <= i < |s| - 1 && s[i] == '/' && s[i + 1] == '/'
  }

  /** Appending a name that does not start with '/' never puts two separators in a row. */
  lemma PathAppendNoDoubleSlash(dir: string, name: string)
    requires !HasDoubleSlash(dir) && !HasDoubleSlash(name)
    requires name == [] || name[0] != '/'
    ensures !HasDoubleSlash(PathAppend(dir, name))
  {
    var r := PathAppend(dir, name);
    var sep := |r| - |dir| - |name|;
    assert r == dir + r[|dir|..|dir| + sep] + name;
    forall i | 0 <= i < |r| - 1
      ensures !(r[i] == '/' && r[i + 1] == '/')
    {
      if i + 1 < |dir| {
        assert r[i] == dir[i] && r[i + 1] == dir[i + 1];
      } else if i + 1 == |dir| {
        if sep == 1 {
          assert r[i] == dir[|dir| - 1] != '/';
        } else {
          assert r[i + 1] == name[0] != '/';
        }
      } else if i < |dir| + sep {
        assert r[i + 1] == name[0] != '/';
      } else {
        assert r[i] == name[i - |dir| - sep] && r[i + 1] == name[i + 1 - |dir| - sep];
      }
    }
  }

  /** Two names that do not start with '/', appended to the same path, give the same path only if they are equal. */
  lemma PathAppendInjective(dir: string, a: string, b: string)
    requires a != [] && a[0] != '/' && b != [] && b[0] != '/'
    requires PathAppend(dir, a) == PathAppend(dir, b)
    ensures a == b
  {
    var ra, rb := PathAppend(dir, a), PathAppend(dir, b);
    assert |ra| - |a| == |rb| - |b|;
    assert a == ra[|ra| - |a|..];
  }

  /** The parameter file named after the counter (lines 170-172). */
  function ParamFileName(outDir: string, counter: nat): string {
    PathAppend(outDir, Decimal(counter) + "_param.txt")
  }

  /** The results file named after the counter (lines 177-179). */
  function ResultsFileName(outDir: string, counter: nat): string {
    PathAppend(outDir, Decimal(counter) + "_results.txt")
  }

  /** With the default output directory, which ends in '/', no second separator is added (line 24). */
  lemma DefaultDirParamFile()
    ensures ParamFileName("/tmp/object_recognition_results/", 1) == "/tmp/object_recognition_results/1_param.txt"
  {
    var dir: string := "/tmp/object_recognition_results/";
    var name: string := "1_param.txt";
    assert Decimal(1) + "_param.txt" == name;
    PathAppendAfterSeparator(dir, name);
  }

  /** With an empty output directory the file is named relative to the working directory. */
  lemma EmptyDirResultsFile()
    ensures ResultsFileName("", 2) == "2_results.txt"
  {
    assert Decimal(2) + "_results.txt" == "2_results.txt";
  }

  /** After a path that ends in '/', the name is appended as it is. */
  lemma PathAppendAfterSeparator(dir: string, name: string)
    requires dir != [] && dir[|dir| - 1] == '/'
    ensures PathAppend(dir, name) == dir + name
  {
  }

  /** A number larger than every element of `s`. */
  ghost function Bound(s: set<nat>): (b: nat)
    ensures forall k :: k in s ==> k < b
  {
    if s == {} then 0
    else
      var x :| x in s;
      var rest := Bound(s - {x});
      assert forall k :: k in s ==> k == x || k in s - {x};
      if x < rest then rest else x + 1
  }

  /**
   * The do-while loop of lines 63-69: the directory index is the least
   * counter value whose folder does not exist, and the counter ends one
   * past it because of the post-increment.
   */
  method FindEvalDir(existing: set<nat>) returns (index: nat, counter: nat)
    ensures index !in existing
    ensures forall k: nat :: k < index ==> k in existing
    ensures counter == index + 1
  {
    counter := 0;
    index := counter;
    counter := counter + 1;
    while index in existing
      invariant counter == index + 1
      invariant forall k: nat :: k < index ==> k in existing
      decreases Bound(existing) - index
    {
      index := counter;
      counter := counter + 1;
    }
  }

  /**
   * The parameter and results files carry the counter, which is one past
   * the index of the directory the results went to: they never carry the
   * directory's own index.
   */
  lemma EvalFilesNamedAfterNextIndex(outDir: string, existing: set<nat>, index: nat, counter: nat)
    requires index !in existing && forall k: nat :: k < index ==> k in existing
    requires counter == index + 1
    ensures ParamFileName(outDir, counter) != PathAppend(outDir, Decimal(index) + "_param.txt")
    ensures ResultsFileName(outDir, counter) != PathAppend(outDir, Decimal(index) + "_results.txt")
  {
    NamedAfterDifferent(outDir, counter, index, "_param.txt");
    NamedAfterDifferent(outDir, counter, index, "_results.txt");
  }

  /** Files named after different counters, with the same suffix, have different paths. */
  lemma NamedAfterDifferent(outDir: string, m: nat, n: nat, suffix: string)
    requires m != n
    ensures PathAppend(outDir, Decimal(m) + suffix) != PathAppend(outDir, Decimal(n) + suffix)
  {
    var a, b := Decimal(m) + suffix, Decimal(n) + suffix;
    assert a[0] == Decimal(m)[0] && b[0] == Decimal(n)[0];
    if PathAppend(outDir, a) == PathAppend(outDir, b) {
      PathAppendInjective(outDir, a, b);
      assert Decimal(m) == a[..|a| - |suffix|] == b[..|b| - |suffix|] == Decimal(n);
      DecimalInjective(m, n);
    }
  }

  // ---------------------------------------------------------------------
  // Median time (lines 159-161)
  // ---------------------------------------------------------------------

  /** The element at index size/2 of the sorted times. */
  function MedianOf(times: seq<real>): real
    requires |times| > 0
  {
    Sorting.SortBy(times, Sorting.Id)[|times| / 2]
  }

  /**
   * Lines 160-161: `std::sort` rearranges the time list in place into its
   * ascending arrangement, then the element at index size/2 is taken. With
   * no time recorded that index reads past the end of an empty vector,
   * which has no defined value: the model reports `None` there.
   */
  method MedianTime(elapsed: array<real>) returns (median: Option<real>)
    modifies elapsed
    ensures elapsed[..] == Sorting.SortBy(old(elapsed[..]), Sorting.Id)
    ensures median.None? <==> elapsed.Length == 0
    ensures median.Some? ==> median.value == MedianOf(old(elapsed[..]))
  {
    var sorted := Sorting.SortBy(elapsed[..], Sorting.Id);
    forall i | 0 <= i < elapsed.Length {
      elapsed[i] := sorted[i];
    }
    if elapsed.Length == 0 {
      median := None;
    } else {
      median := Some(elapsed[elapsed.Length / 2]);
    }
  }

  /** How many elements of `s` satisfy `p`. */
  function CountIf(s: seq<real>, p: real -> bool): (n: nat)
    ensures n <= |s|
  {
    if |s| == 0 then 0 else CountIf(s[..|s| - 1], p) + (if p(s[|s| - 1]) then 1 else 0)
  }

  lemma {:induction false} CountIfConcat(u: seq<real>, v: seq<real>, p: real -> bool)
    ensures CountIf(u + v, p) == CountIf(u, p) + CountIf(v, p)
    decreases |v|
  {
    if |v| > 0 {
      assert (u + v)[..|u + v| - 1] == u + v[..|v| - 1];
      CountIfConcat(u, v[..|v| - 1], p);
    } else {
      assert u + v == u;
    }
  }

  /** The count depends only on the multiset of elements. */
  lemma {:induction false} CountIfPermutation(a: seq<real>, b: seq<real>, p: real -> bool)
    requires multiset(a) == multiset(b)
    ensures CountIf(a, p) == CountIf(b, p)
    decreases |a|
  {
    if |a| == 0 {
      assert |b| == |multiset(b)| == 0;
    } else {
      var x, front := a[|a| - 1], a[..|a| - 1];
      assert a == front + [x];
      assert x in multiset(b);
      var j :| 0 <= j < |b| && b[j] == x;
      var left, right := b[..j], b[j + 1..];
      assert b == left + [x] + right;
      Sorting.RemoveMatching(front, left, x, right, multiset(a));
      CountIfPermutation(front, left + right, p);
      CountIfSplit(left, x, right, p);
    }
  }

  /** Taking one element out of the middle of a list takes its contribution out of the count. */
  lemma CountIfSplit(l: seq<real>, x: real, r: seq<real>, p: real -> bool)
    ensures CountIf(l + [x] + r, p) == CountIf(l + r, p) + if p(x) then 1 else 0
  {
    CountIfConcat(l, r, p);
    CountIfConcat(l + [x], r, p);
    CountIfConcat(l, [x], p);
    assert CountIf([x], p) == if p(x) then 1 else 0 by {
      assert [x][..0] == [];
    }
  }

  /** No element satisfies `p`: the count is zero. */
  lemma {:induction false} CountIfNone(s: seq<real>, p: real -> bool)
    requires forall i :: 0 <= i < |s| ==> !p(s[i])
    ensures CountIf(s, p) == 0
  {
    if |s| > 0 {
      CountIfNone(s[..|s| - 1], p);
    }
  }

  /** The test "smaller than `m`". */
  function Below(m: real): real -> bool {
    x => x < m
  }

  /** The test "larger than `m`". */
  function Above(m: real): real -> bool {
    x => x > m
  }

  /** In an ascending list, fewer than `mid` elements lie below the one at `mid`. */
  lemma SortedBelow(r: seq<real>, mid: nat)
    requires Sorting.SortedBy(r, Sorting.Id) && mid < |r|
    ensures CountIf(r, Below(r[mid])) <= mid
  {
    var p := Below(r[mid]);
    var front, back := r[..mid], r[mid..];
    assert r == front + back;
    CountIfConcat(front, back, p);
    forall i | 0 <= i < |back| ensures !p(back[i]) {
      assert back[i] == r[mid + i];
      assert Sorting.Id(r[mid]) <= Sorting.Id(r[mid + i]);
    }
    CountIfNone(back, p);
  }

  /** In an ascending list, at most |r| - 1 - `mid` elements lie above the one at `mid`. */
  lemma SortedAbove(r: seq<real>, mid: nat)
    requires Sorting.SortedBy(r, Sorting.Id) && mid < |r|
    ensures CountIf(r, Above(r[mid])) <= |r| - 1 - mid
  {
    var p := Above(r[mid]);
    var front, back := r[..mid + 1], r[mid + 1..];
    assert r == front + back;
    CountIfConcat(front, back, p);
    forall i | 0 <= i < |front| ensures !p(front[i]) {
      assert front[i] == r[i];
      assert Sorting.Id(r[i]) <= Sorting.Id(r[mid]);
    }
    CountIfNone(front, p);
  }

  /** At most size/2 of the times are smaller than the reported median. */
  lemma MedianBelow(times: seq<real>)
    requires |times| > 0
    ensures CountIf(times, Below(MedianOf(times))) <= |times| / 2
  {
    var r := Sorting.SortBy(times, Sorting.Id);
    CountIfPermutation(times, r, Below(r[|times| / 2]));
    SortedBelow(r, |times| / 2);
  }

  /** At most size - 1 - size/2 of the times are larger than the reported median. */
  lemma MedianAbove(times: seq<real>)
    requires |times| > 0
    ensures CountIf(times, Above(MedianOf(times))) <= |times| - 1 - |times| / 2
  {
    var r := Sorting.SortBy(times, Sorting.Id);
    CountIfPermutation(times, r, Above(r[|times| / 2]));
    SortedAbove(r, |times| / 2);
  }

  /**
   * The reported median is one of the times, at most size/2 times are
   * smaller than it and at most size - 1 - size/2 are larger.
   */
  lemma MedianSplits(times: seq<real>)
    requires |times| > 0
    ensures MedianOf(times) in times
    ensures CountIf(times, Below(MedianOf(times))) <= |times| / 2
    ensures CountIf(times, Above(MedianOf(times))) <= |times| - 1 - |times| / 2
  {
    var r := Sorting.SortBy(times, Sorting.Id);
    assert r[|times| / 2] in multiset(r);
    MedianBelow(times);
    MedianAbove(times);
  }
}

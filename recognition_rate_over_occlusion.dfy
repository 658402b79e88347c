/**
 * The recognition-rate-over-occlusion tool
 * (apps/ObjectRecognizer/compute_recognition_rate_over_occlusion.cpp):
 * reading an annotation or result file into hypotheses grouped by model
 * name, and deciding for every ground-truth instance whether it was
 * recognised.
 *
 * A file is the sequence of its lines. Turning a token into a number
 * (`std::stof`, `operator>>` on a float) is the parameter `readNum`,
 * which answers None where the library would throw or fail. The
 * translation error between two poses of a model needs the model's
 * centroid and is the parameter `transError`.
 */
module OcclusionEvaluation {
  import opened Wrappers
  import Text
  import Types
  import OrderedMaps

  /** An annotated or recognised instance: its pose and its occlusion (lines 28-32). */
  datatype Hypothesis = Hypothesis(pose: Types.Matrix4, occlusion: real)

  datatype ReadError =
    | OcclusionOutOfRange         // `substr(1, ...)` of an empty token throws std::out_of_range
    | BadOcclusion(token: string) // `std::stof` throws std::invalid_argument
    | MissingPose                 // fewer than sixteen pose values on the line
    | BadPoseEntry(token: string) // a pose value that does not read as a number

  /** The default of `translation_error_threshold_m` (line 80), in metres. */
  const DefaultTranslationThreshold: real := 0.05

  // ---------------------------------------------------------------------
  // One line (lines 51-60)
  // ---------------------------------------------------------------------

  /**
   * `occlusion_tmp.substr(1, occlusion_tmp.length() - 3)` (line 56): the
   * first and the last two characters are dropped. For tokens of one or
   * two characters the unsigned length wraps around, so the rest of the
   * token after its first character is taken; an empty token throws.
   */
  function StripOcclusion(t: string): (r: Result<string, ReadError>)
    ensures r.Failure? <==> |t| == 0
    ensures r.Failure? ==> r.error == OcclusionOutOfRange
    ensures r.Success? ==> |r.value| == if |t| >= 3 then |t| - 3 else |t| - 1
    ensures r.Success? ==> forall i :: 0 <= i < |r.value| ==> r.value[i] == t[i + 1]
  {
    if |t| == 0 then Failure(OcclusionOutOfRange)
    else if |t| < 3 then Success(t[1..])
    else Success(t[1..|t| - 2])
  }

  /** What the writers put around the confidence, `(` before and `):` after, is what is stripped. */
  lemma StripWrapped(x: string)
    ensures StripOcclusion("(" + x + "):") == Success(x)
  {
    var t := "(" + x + "):";
    assert t[1..|t| - 2] == x;
  }

  /** All tokens read as numbers, in order; the first that does not read is reported. */
  function ReadNumbers(ts: seq<string>, readNum: string -> Option<real>): (r: Result<seq<real>, ReadError>)
    ensures r.Success? <==> forall k :: 0 <= k < |ts| ==> readNum(ts[k]).Some?
    ensures r.Success? ==> |r.value| == |ts| && forall k :: 0 <= k < |ts| ==> r.value[k] == readNum(ts[k]).value
  {
    if |ts| == 0 then Success([])
    else
      match ReadNumbers(ts[..|ts| - 1], readNum)
      case Failure(e) => Failure(e)
      case Success(vs) =>
        match readNum(ts[|ts| - 1])
        case None => Failure(BadPoseEntry(ts[|ts| - 1]))
        case Some(v) => Success(vs + [v])
  }

  /** The 16 values put into the pose in row-major order: value `i` goes to `(i / 4, i % 4)` (line 60). */
  function PoseOf(vals: seq<real>): (m: Types.Matrix4)
    requires |vals| == 16
    ensures forall r, c :: 0 <= r < 4 && 0 <= c < 4 ==> m[r][c] == vals[4 * r + c]
  {
    seq(4, r requires 0 <= r < 4 => seq(4, c requires 0 <= c < 4 => vals[4 * r + c]))
  }

  /** The entries of a pose row by row, as the writers emit them. */
  function PoseEntries(m: Types.Matrix4): (vals: seq<real>)
    ensures |vals| == 16
  {
    m[0] + m[1] + m[2] + m[3]
  }

  /** Reading back the entries of a pose in row-major order rebuilds the pose. */
  lemma PoseOfEntries(m: Types.Matrix4)
    ensures PoseOf(PoseEntries(m)) == m
  {
    var p := PoseOf(PoseEntries(m));
    forall r | 0 <= r < 4 ensures p[r] == m[r] {
      forall c | 0 <= c < 4 ensures p[r][c] == m[r][c] {
        assert PoseEntries(m)[4 * r + c] == m[r][c];
      }
    }
  }

  /** The pose from the third to the eighteenth token of a line (lines 59-60). */
  function PoseFromTokens(ts: seq<string>, readNum: string -> Option<real>): Result<Types.Matrix4, ReadError> {
    if |ts| < 18 then Failure(MissingPose)
    else
      match ReadNumbers(ts[2..18], readNum)
      case Failure(e) => Failure(e)
      case Success(vs) => Success(PoseOf(vs))
  }

  /** The pose is read when sixteen pose tokens follow the first two, and value `i` of them lands at `(i / 4, i % 4)`. */
  lemma PoseFromTokensFields(ts: seq<string>, readNum: string -> Option<real>)
    ensures PoseFromTokens(ts, readNum).Success? <==> |ts| >= 18 && forall k :: 2 <= k < 18 ==> readNum(ts[k]).Some?
    ensures PoseFromTokens(ts, readNum).Success? ==>
      forall i :: 0 <= i < 16 ==> PoseFromTokens(ts, readNum).value[i / 4][i % 4] == readNum(ts[2 + i]).value
  {
    if |ts| >= 18 {
      var window := ts[2..18];
      assert forall i :: 0 <= i < 16 ==> window[i] == ts[2 + i];
      match ReadNumbers(window, readNum)
      case Failure(e) =>
        var j :| 0 <= j < 16 && readNum(window[j]).None?;
        assert readNum(ts[2 + j]).None?;
      case Success(vs) =>
        assert forall i :: 0 <= i < 16 ==> PoseOf(vs)[i / 4][i % 4] == vs[4 * (i / 4) + i % 4];
    }
  }

  /**
   * One line: the model name, the occlusion token and sixteen pose values,
   * whitespace separated; anything after them is not read. The stored
   * occlusion is one minus the value of the stripped token (line 57).
   */
  function ParseLine(line: string, readNum: string -> Option<real>): Result<(string, Hypothesis), ReadError>
  {
    var ts := Text.Tokens(line);
    var name := if |ts| > 0 then ts[0] else "";
    var occlusionToken := if |ts| > 1 then ts[1] else "";
    match StripOcclusion(occlusionToken)
    case Failure(e) => Failure(e)
    case Success(o) =>
      match readNum(o)
      case None => Failure(BadOcclusion(o))
      case Some(v) =>
        match PoseFromTokens(ts, readNum)
        case Failure(e) => Failure(e)
        case Success(pose) => Success((name, Hypothesis(pose, 1.0 - v)))
  }

  /**
   * A line is read when it has a name, an occlusion token that reads as a
   * number once stripped, and sixteen pose values; the name is the first
   * token, the occlusion one minus the stripped second token's value, and
   * the pose the next sixteen values in row-major order.
   */
  lemma ParseLineFields(line: string, readNum: string -> Option<real>)
    ensures var ts := Text.Tokens(line);
      ParseLine(line, readNum).Success? <==>
        |ts| >= 18 && readNum(StripOcclusion(ts[1]).value).Some? && forall k :: 2 <= k < 18 ==> readNum(ts[k]).Some?
    ensures var ts := Text.Tokens(line); var r := ParseLine(line, readNum);
      r.Success? ==>
        r.value.0 == ts[0] &&
        r.value.1.occlusion == 1.0 - readNum(StripOcclusion(ts[1]).value).value &&
        forall i :: 0 <= i < 16 ==> r.value.1.pose[i / 4][i % 4] == readNum(ts[2 + i]).value
  {
    PoseFromTokensFields(Text.Tokens(line), readNum);
  }

  /** The reading of one line, with the loop over the sixteen pose values (lines 51-60). */
  method ReadLine(line: string, readNum: string -> Option<real>) returns (r: Result<(string, Hypothesis), ReadError>)
    ensures r == ParseLine(line, readNum)
  {
    var ts := Text.Tokens(line);
    var name := if |ts| > 0 then ts[0] else "";
    var occlusionToken := if |ts| > 1 then ts[1] else "";
    var stripped := StripOcclusion(occlusionToken);
    if stripped.Failure? {
      return Failure(stripped.error);
    }
    var occlusion := readNum(stripped.value);
    if occlusion.None? {
      return Failure(BadOcclusion(stripped.value));
    }
    if |ts| < 18 {
      return Failure(MissingPose);
    }
    var window := ts[2..18];
    var vals: seq<real> := [];
    for i := 0 to 16
      invariant ReadNumbers(window[..i], readNum) == Success(vals)
    {
      assert window[..i + 1][..i] == window[..i];
      var v := readNum(window[i]);
      if v.None? {
        ReadNumbersFailureStays(window, readNum, i + 1);
        return Failure(BadPoseEntry(window[i]));
      }
      vals := vals + [v.value];
    }
    assert window[..16] == window;
    r := Success((name, Hypothesis(PoseOf(vals), 1.0 - occlusion.value)));
  }

  /** Once a value has not read, reading more values does not change the outcome. */
  lemma {:induction false} ReadNumbersFailureStays(ts: seq<string>, readNum: string -> Option<real>, i: nat)
    requires i <= |ts| && ReadNumbers(ts[..i], readNum).Failure?
    ensures ReadNumbers(ts, readNum) == ReadNumbers(ts[..i], readNum)
    decreases |ts| - i
  {
    if i < |ts| {
      assert ts[..i + 1][..i] == ts[..i];
      ReadNumbersFailureStays(ts, readNum, i + 1);
    } else {
      assert ts[..i] == ts;
    }
  }

  // ---------------------------------------------------------------------
  // A whole file (lines 42-70)
  // ---------------------------------------------------------------------

  /**
   * Adding a line's hypothesis: appended to the name's list when the name
   * is known, a new list of one otherwise (lines 62-66).
   */
  function AddHypothesis(m: map<string, seq<Hypothesis>>, name: string, h: Hypothesis): (r: map<string, seq<Hypothesis>>)
    ensures r.Keys == m.Keys + {name}
    ensures r[name] == (if name in m then m[name] else []) + [h]
    ensures forall k :: k in m && k != name ==> r[k] == m[k]
  {
    if name in m then m[name := m[name] + [h]] else m[name := [h]]
  }

  /** The parser of one line as a function value. */
  function LineReader(readNum: string -> Option<real>): (parse: string -> Result<(string, Hypothesis), ReadError>)
    ensures forall line :: parse(line) == ParseLine(line, readNum)
  {
    line => ParseLine(line, readNum)
  }

  /** The map after reading `lines` in order with `parse`; the first line that throws ends the reading. */
  function ReadWith(lines: seq<string>, parse: string -> Result<(string, Hypothesis), ReadError>): Result<map<string, seq<Hypothesis>>, ReadError> {
    if |lines| == 0 then Success(map[])
    else
      var before := ReadWith(lines[..|lines| - 1], parse);
      var p := parse(lines[|lines| - 1]);
      if before.Failure? then before
      else if p.Failure? then Failure(p.error)
      else Success(AddHypothesis(before.value, p.value.0, p.value.1))
  }

  /** What `readHypothesesFromFile` returns for a file of `lines`. */
  function ReadAll(lines: seq<string>, readNum: string -> Option<real>): Result<map<string, seq<Hypothesis>>, ReadError> {
    ReadWith(lines, LineReader(readNum))
  }

  predicate AllParse(lines: seq<string>, parse: string -> Result<(string, Hypothesis), ReadError>) {
    forall i :: 0 <= i < |lines| ==> parse(lines[i]).Success?
  }

  /** The name and hypothesis of every line, in line order. */
  function Parsed(lines: seq<string>, parse: string -> Result<(string, Hypothesis), ReadError>): (ps: seq<(string, Hypothesis)>)
    requires AllParse(lines, parse)
    ensures |ps| == |lines|
  {
    if |lines| == 0 then []
    else
      var front := lines[..|lines| - 1];
      assert forall i :: 0 <= i < |front| ==> front[i] == lines[i];
      Parsed(front, parse) + [parse(lines[|lines| - 1]).value]
  }

  /** Entry `i` is what line `i` parses to. */
  lemma {:induction false} ParsedAt(lines: seq<string>, parse: string -> Result<(string, Hypothesis), ReadError>)
    requires AllParse(lines, parse)
    ensures forall i :: 0 <= i < |lines| ==> Parsed(lines, parse)[i] == parse(lines[i]).value
  {
    if |lines| > 0 {
      var front := lines[..|lines| - 1];
      assert forall i :: 0 <= i < |front| ==> front[i] == lines[i];
      ParsedAt(front, parse);
    }
  }

  /** The hypotheses of the entries naming `name`, in their order. */
  function About(ps: seq<(string, Hypothesis)>, name: string): seq<Hypothesis> {
    if |ps| == 0 then []
    else About(ps[..|ps| - 1], name) + (if ps[|ps| - 1].0 == name then [ps[|ps| - 1].1] else [])
  }

  /** The map that groups the entries `ps` by name: each entry is added in turn. */
  function GroupAll(ps: seq<(string, Hypothesis)>): map<string, seq<Hypothesis>> {
    if |ps| == 0 then map[]
    else AddHypothesis(GroupAll(ps[..|ps| - 1]), ps[|ps| - 1].0, ps[|ps| - 1].1)
  }

  /**
   * Grouping keeps a key for each name among the entries and, under it,
   * that name's hypotheses in entry order, one per entry.
   */
  lemma {:induction false} GroupAllContents(ps: seq<(string, Hypothesis)>)
    ensures forall name :: name in GroupAll(ps) <==> exists i :: 0 <= i < |ps| && ps[i].0 == name
    ensures forall name :: name in GroupAll(ps) ==> GroupAll(ps)[name] == About(ps, name)
    ensures forall name :: name !in GroupAll(ps) ==> About(ps, name) == []
  {
    if |ps| > 0 {
      var front, last := ps[..|ps| - 1], ps[|ps| - 1];
      GroupAllContents(front);
      var g, r := GroupAll(front), GroupAll(ps);
      assert r == AddHypothesis(g, last.0, last.1);
      forall name
        ensures (name in r <==> exists i :: 0 <= i < |ps| && ps[i].0 == name)
        ensures name in r ==> r[name] == About(ps, name)
        ensures name !in r ==> About(ps, name) == []
      {
        GroupStep(ps, g, name);
      }
    }
  }

  /** One more entry: what grouping the earlier entries gives for `name` carries over to all of them. */
  lemma GroupStep(ps: seq<(string, Hypothesis)>, g: map<string, seq<Hypothesis>>, name: string)
    requires |ps| > 0
    requires var front := ps[..|ps| - 1];
      && (name in g <==> exists i :: 0 <= i < |front| && front[i].0 == name)
      && (name in g ==> g[name] == About(front, name))
      && (name !in g ==> About(front, name) == [])
    ensures var r := AddHypothesis(g, ps[|ps| - 1].0, ps[|ps| - 1].1);
      && (name in r <==> exists i :: 0 <= i < |ps| && ps[i].0 == name)
      && (name in r ==> r[name] == About(ps, name))
      && (name !in r ==> About(ps, name) == [])
  {
    var front, last := ps[..|ps| - 1], ps[|ps| - 1];
    assert About(ps, name) == About(front, name) + (if last.0 == name then [last.1] else []);
    if exists i :: 0 <= i < |ps| && ps[i].0 == name {
      var i :| 0 <= i < |ps| && ps[i].0 == name;
      if i < |front| { assert front[i] == ps[i]; }
    }
    if exists i :: 0 <= i < |front| && front[i].0 == name {
      var i :| 0 <= i < |front| && front[i].0 == name;
      assert ps[i] == front[i];
    }
  }

  /** Reading succeeds exactly when every line parses. */
  lemma {:induction false} ReadSucceeds(lines: seq<string>, parse: string -> Result<(string, Hypothesis), ReadError>)
    ensures ReadWith(lines, parse).Success? <==> AllParse(lines, parse)
  {
    if |lines| > 0 {
      var front := lines[..|lines| - 1];
      ReadSucceeds(front, parse);
      if AllParse(lines, parse) {
        assert forall i :: 0 <= i < |front| ==> front[i] == lines[i];
      } else {
        var i :| 0 <= i < |lines| && parse(lines[i]).Failure?;
        if i < |front| {
          assert front[i] == lines[i];
        }
      }
    }
  }

  /** A successful reading groups the lines' entries. */
  lemma {:induction false} ReadIsGrouping(lines: seq<string>, parse: string -> Result<(string, Hypothesis), ReadError>)
    requires AllParse(lines, parse)
    ensures ReadWith(lines, parse) == Success(GroupAll(Parsed(lines, parse)))
  {
    if |lines| > 0 {
      var front := lines[..|lines| - 1];
      assert forall i :: 0 <= i < |front| ==> front[i] == lines[i];
      ReadIsGrouping(front, parse);
      assert Parsed(lines, parse)[..|lines| - 1] == Parsed(front, parse);
    }
  }

  /**
   * Reading succeeds exactly when every line parses; the map then has a
   * key for each model name on some line, and under it one hypothesis per
   * line with that name, in line order.
   */
  lemma ReadAllGroups(lines: seq<string>, readNum: string -> Option<real>)
    ensures ReadAll(lines, readNum).Success? <==> forall i :: 0 <= i < |lines| ==> ParseLine(lines[i], readNum).Success?
    ensures ReadAll(lines, readNum).Success? ==>
      var m := ReadAll(lines, readNum).value;
      var ps := Parsed(lines, LineReader(readNum));
      forall name ::
        (name in m <==> exists i :: 0 <= i < |lines| && ParseLine(lines[i], readNum).value.0 == name) &&
        (name in m ==> m[name] == About(ps, name))
  {
    var parse := LineReader(readNum);
    ReadSucceeds(lines, parse);
    if AllParse(lines, parse) {
      ReadIsGrouping(lines, parse);
      GroupAllContents(Parsed(lines, parse));
      ParsedAt(lines, parse);
    }
  }

  /** Once a line has thrown, reading more lines does not change the outcome. */
  lemma {:induction false} ReadFailureStays(lines: seq<string>, parse: string -> Result<(string, Hypothesis), ReadError>, i: nat)
    requires i <= |lines| && ReadWith(lines[..i], parse).Failure?
    ensures ReadWith(lines, parse) == ReadWith(lines[..i], parse)
    decreases |lines| - i
  {
    if i < |lines| {
      assert lines[..i + 1][..i] == lines[..i];
      ReadFailureStays(lines, parse, i + 1);
    } else {
      assert lines[..i] == lines;
    }
  }

  /** `readHypothesesFromFile` (lines 42-70): the `getline` loop over the file's lines. */
  method ReadHypothesesFromFile(lines: seq<string>, readNum: string -> Option<real>)
    returns (r: Result<map<string, seq<Hypothesis>>, ReadError>)
    ensures r == ReadAll(lines, readNum)
  {
    var hypotheses: map<string, seq<Hypothesis>> := map[];
    var i := 0;
    while i < |lines|
      invariant 0 <= i <= |lines|
      invariant ReadWith(lines[..i], LineReader(readNum)) == Success(hypotheses)
    {
      assert lines[..i + 1][..i] == lines[..i];
      var p := ReadLine(lines[i], readNum);
      if p.Failure? {
        ReadFailureStays(lines, LineReader(readNum), i + 1);
        return Failure(p.error);
      }
      var name, h := p.value.0, p.value.1;
      if name in hypotheses {
        hypotheses := hypotheses[name := hypotheses[name] + [h]];
      } else {
        hypotheses := hypotheses[name := [h]];
      }
      i := i + 1;
    }
    assert lines[..i] == lines;
    r := Success(hypotheses);
  }

  // ---------------------------------------------------------------------
  // Matching ground truth against results (lines 158-190)
  // ---------------------------------------------------------------------

  datatype Row = Row(occlusion: real, isRecognized: bool)

  /** Does one of `recs` lie closer than `threshold` to the ground-truth pose? */
  function AnyClose(name: string, gtPose: Types.Matrix4, recs: seq<Hypothesis>,
                    transError: (string, Types.Matrix4, Types.Matrix4) -> real, threshold: real): (b: bool)
    ensures b <==> exists j :: 0 <= j < |recs| && transError(name, gtPose, recs[j].pose) < threshold
  {
    if |recs| == 0 then false
    else
      var front := recs[..|recs| - 1];
      assert forall j :: 0 <= j < |front| ==> front[j] == recs[j];
      AnyClose(name, gtPose, front, transError, threshold) ||
      transError(name, gtPose, recs[|recs| - 1].pose) < threshold
  }

  /**
   * A ground-truth instance is recognised iff the results hold a
   * hypothesis of the same model whose translation error is strictly
   * below the threshold; a model without results is not recognised.
   */
  function Recognized(name: string, gtPose: Types.Matrix4, rec: map<string, seq<Hypothesis>>,
                      transError: (string, Types.Matrix4, Types.Matrix4) -> real, threshold: real): (b: bool)
    ensures b <==> name in rec && exists j :: 0 <= j < |rec[name]| && transError(name, gtPose, rec[name][j].pose) < threshold
  {
    name in rec && AnyClose(name, gtPose, rec[name], transError, threshold)
  }

  /** The `is_recognized` flag computed by the loop of lines 166-186. */
  method IsRecognized(name: string, gtPose: Types.Matrix4, rec: map<string, seq<Hypothesis>>,
                      transError: (string, Types.Matrix4, Types.Matrix4) -> real, threshold: real)
    returns (isRecognized: bool)
    ensures isRecognized == Recognized(name, gtPose, rec, transError, threshold)
  {
    isRecognized := false;
    if name in rec {
      var recs := rec[name];
      for j := 0 to |recs|
        invariant isRecognized == AnyClose(name, gtPose, recs[..j], transError, threshold)
      {
        assert recs[..j + 1][..j] == recs[..j];
        if transError(name, gtPose, recs[j].pose) < threshold {
          isRecognized := true;
        }
      }
      assert recs[..|recs|] == recs;
    }
  }

  /** The rows of one model's ground-truth instances, in their order. */
  function RowsFor(name: string, gts: seq<Hypothesis>, rec: map<string, seq<Hypothesis>>,
                   transError: (string, Types.Matrix4, Types.Matrix4) -> real, threshold: real): (rows: seq<Row>)
    ensures |rows| == |gts|
  {
    seq(|gts|, k requires 0 <= k < |gts| => Row(gts[k].occlusion, Recognized(name, gts[k].pose, rec, transError, threshold)))
  }

  /** The rows for the models `ks` of the ground truth, one model after the other. */
  function RowsOfKeys(gt: map<string, seq<Hypothesis>>, rec: map<string, seq<Hypothesis>>, ks: seq<string>,
                      transError: (string, Types.Matrix4, Types.Matrix4) -> real, threshold: real): seq<Row>
    requires forall k :: k in ks ==> k in gt
  {
    if |ks| == 0 then []
    else
      RowsOfKeys(gt, rec, ks[..|ks| - 1], transError, threshold) +
      RowsFor(ks[|ks| - 1], gt[ks[|ks| - 1]], rec, transError, threshold)
  }

  /** The number of ground-truth instances of the models `ks`. */
  function InstanceCount(gt: map<string, seq<Hypothesis>>, ks: seq<string>): nat
    requires forall k :: k in ks ==> k in gt
  {
    if |ks| == 0 then 0 else InstanceCount(gt, ks[..|ks| - 1]) + |gt[ks[|ks| - 1]]|
  }

  /** What the tool writes for one annotation file, visiting the models in map order. */
  ghost function OcclusionRows(gt: map<string, seq<Hypothesis>>, rec: map<string, seq<Hypothesis>>,
                               transError: (string, Types.Matrix4, Types.Matrix4) -> real, threshold: real): seq<Row> {
    RowsOfKeys(gt, rec, OrderedMaps.SortedKeys(gt.Keys), transError, threshold)
  }

  /**
   * There is one row per ground-truth instance: the `k`-th instance of the
   * `p`-th model comes after the instances of the models before it, and
   * carries that instance's occlusion and recognition flag.
   */
  lemma {:induction false} RowsLayout(gt: map<string, seq<Hypothesis>>, rec: map<string, seq<Hypothesis>>, ks: seq<string>,
                                      transError: (string, Types.Matrix4, Types.Matrix4) -> real, threshold: real)
    requires forall k :: k in ks ==> k in gt
    ensures |RowsOfKeys(gt, rec, ks, transError, threshold)| == InstanceCount(gt, ks)
    ensures forall p :: 0 <= p < |ks| ==> InstanceCount(gt, ks[..p]) + |gt[ks[p]]| <= InstanceCount(gt, ks)
    ensures forall p, k :: 0 <= p < |ks| && 0 <= k < |gt[ks[p]]| ==>
      RowsOfKeys(gt, rec, ks, transError, threshold)[InstanceCount(gt, ks[..p]) + k] ==
        Row(gt[ks[p]][k].occlusion, Recognized(ks[p], gt[ks[p]][k].pose, rec, transError, threshold))
  {
    RowsCount(gt, rec, ks, transError, threshold);
    forall p | 0 <= p < |ks| ensures InstanceCount(gt, ks[..p]) + |gt[ks[p]]| <= InstanceCount(gt, ks) {
      InstanceCountBound(gt, ks, p);
    }
    forall p, k | 0 <= p < |ks| && 0 <= k < |gt[ks[p]]|
      ensures RowsOfKeys(gt, rec, ks, transError, threshold)[InstanceCount(gt, ks[..p]) + k] ==
        Row(gt[ks[p]][k].occlusion, Recognized(ks[p], gt[ks[p]][k].pose, rec, transError, threshold))
    {
      RowAt(gt, rec, ks, transError, threshold, p, k);
    }
  }

  lemma {:induction false} RowsCount(gt: map<string, seq<Hypothesis>>, rec: map<string, seq<Hypothesis>>, ks: seq<string>,
                                     transError: (string, Types.Matrix4, Types.Matrix4) -> real, threshold: real)
    requires forall k :: k in ks ==> k in gt
    ensures |RowsOfKeys(gt, rec, ks, transError, threshold)| == InstanceCount(gt, ks)
  {
    if |ks| > 0 {
      RowsCount(gt, rec, ks[..|ks| - 1], transError, threshold);
    }
  }

  /** The row of the `k`-th instance of the `p`-th model. */
  lemma {:induction false} RowAt(gt: map<string, seq<Hypothesis>>, rec: map<string, seq<Hypothesis>>, ks: seq<string>,
                                 transError: (string, Types.Matrix4, Types.Matrix4) -> real, threshold: real, p: nat, k: nat)
    requires forall k :: k in ks ==> k in gt
    requires p < |ks| && k < |gt[ks[p]]|
    ensures InstanceCount(gt, ks[..p]) + k < |RowsOfKeys(gt, rec, ks, transError, threshold)|
    ensures RowsOfKeys(gt, rec, ks, transError, threshold)[InstanceCount(gt, ks[..p]) + k] ==
      Row(gt[ks[p]][k].occlusion, Recognized(ks[p], gt[ks[p]][k].pose, rec, transError, threshold))
    decreases |ks|
  {
    var front := ks[..|ks| - 1];
    var last := ks[|ks| - 1];
    var before := RowsOfKeys(gt, rec, front, transError, threshold);
    RowsCount(gt, rec, front, transError, threshold);
    assert RowsOfKeys(gt, rec, ks, transError, threshold) == before + RowsFor(last, gt[last], rec, transError, threshold);
    if p < |front| {
      assert ks[..p] == front[..p] && ks[p] == front[p];
      RowAt(gt, rec, front, transError, threshold, p, k);
    } else {
      assert ks[..p] == front;
    }
  }

  /** The instances of the first `p` models are at most those of all of them, less the `p`-th model's. */
  lemma {:induction false} InstanceCountBound(gt: map<string, seq<Hypothesis>>, ks: seq<string>, p: nat)
    requires forall k :: k in ks ==> k in gt
    requires p < |ks|
    ensures InstanceCount(gt, ks[..p]) + |gt[ks[p]]| <= InstanceCount(gt, ks)
    decreases |ks|
  {
    var front := ks[..|ks| - 1];
    if p < |front| {
      assert ks[..p] == front[..p];
      InstanceCountBound(gt, front, p);
    } else {
      assert ks[..p] == front;
    }
  }

  /** The loops of lines 158-190 over the models `ks` and their ground-truth instances. */
  method RowsOfModels(gt: map<string, seq<Hypothesis>>, rec: map<string, seq<Hypothesis>>, ks: seq<string>,
                      transError: (string, Types.Matrix4, Types.Matrix4) -> real, threshold: real)
    returns (rows: seq<Row>)
    requires forall k :: k in ks ==> k in gt
    ensures rows == RowsOfKeys(gt, rec, ks, transError, threshold)
  {
    rows := [];
    for i := 0 to |ks|
      invariant rows == RowsOfKeys(gt, rec, ks[..i], transError, threshold)
    {
      assert ks[..i + 1][..i] == ks[..i];
      var name := ks[i];
      var gtModelHyps := gt[name];
      ghost var before := rows;
      for k := 0 to |gtModelHyps|
        invariant rows == before + RowsFor(name, gtModelHyps[..k], rec, transError, threshold)
      {
        var isRecognized := IsRecognized(name, gtModelHyps[k].pose, rec, transError, threshold);
        assert RowsFor(name, gtModelHyps[..k + 1], rec, transError, threshold) ==
          RowsFor(name, gtModelHyps[..k], rec, transError, threshold) + [Row(gtModelHyps[k].occlusion, isRecognized)];
        rows := rows + [Row(gtModelHyps[k].occlusion, isRecognized)];
      }
      assert gtModelHyps[..|gtModelHyps|] == gtModelHyps;
    }
    assert ks[..|ks|] == ks;
  }

  /** The rows written for one annotation file: its models in map order, each model's instances in file order. */
  method EvaluateAnnotation(gt: map<string, seq<Hypothesis>>, rec: map<string, seq<Hypothesis>>,
                            transError: (string, Types.Matrix4, Types.Matrix4) -> real, threshold: real)
    returns (rows: seq<Row>)
    ensures rows == OcclusionRows(gt, rec, transError, threshold)
  {
    var ks := OrderedMaps.KeyList(gt.Keys);
    rows := RowsOfModels(gt, rec, ks, transError, threshold);
  }

  /** The results file read for an annotation file (lines 148-150). */
  function RecFileName(annoFile: string, useGeneratedHypotheses: bool): string {
    if useGeneratedHypotheses then Text.ReplaceLast(annoFile, ".anno", ".generated_hyps") else annoFile
  }

  /** The verified results share the annotation's name; the generated ones end in `.generated_hyps`. */
  lemma RecFileOfAnno(p: string)
    ensures RecFileName(p + ".anno", false) == p + ".anno"
    ensures RecFileName(p + ".anno", true) == p + ".generated_hyps"
  {
    Text.ReplaceLastOfSuffix(p, ".anno", ".generated_hyps");
  }
}

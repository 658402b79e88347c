/**
 * The string operations the two evaluation tools rely on: whitespace
 * tokenisation as done by `std::istream >> std::string`, and
 * `boost::replace_last`.
 */
module Text {
  import opened Wrappers

  /** The characters `std::isspace` accepts in the classic locale. */
  predicate IsSpace(ch: char) {
    ch == ' ' || ch == '\t' || ch == '\n' || ch == '\r' || ch == '\U{B}' || ch == '\U{C}'
  }

  /** A token as `>>` extracts it: non-empty and free of whitespace. */
  predicate IsToken(t: string) {
    |t| > 0 && forall i :: 0 <= i < |t| ==> !IsSpace(t[i])
  }

  /** Number of leading non-whitespace characters of `s`. */
  function TokenLength(s: string): (n: nat)
    ensures n <= |s|
    ensures forall i :: 0 <= i < n ==> !IsSpace(s[i])
    ensures n < |s| ==> IsSpace(s[n])
  {
    if |s| == 0 || IsSpace(s[0]) then 0 else 1 + TokenLength(s[1..])
  }

  /** The whitespace-separated tokens of a line, in order. */
  function Tokens(s: string): (ts: seq<string>)
    ensures forall k :: 0 <= k < |ts| ==> IsToken(ts[k])
    decreases |s|
  {
    if |s| == 0 then []
    else if IsSpace(s[0]) then Tokens(s[1..])
    else
      var n := TokenLength(s);
      [s[..n]] + Tokens(s[n..])
  }

  /** Tokens `ts`, each followed by one space, as the writers emit them. */
  function SpaceTerminated(ts: seq<string>): string {
    if |ts| == 0 then "" else ts[0] + " " + SpaceTerminated(ts[1..])
  }

  lemma {:induction false} TokenLengthOfToken(t: string, rest: string)
    requires IsToken(t)
    ensures TokenLength(t + " " + rest) == |t|
    decreases |t|
  {
    var s := t + " " + rest;
    if |t| == 1 {
      assert s[1..] == " " + rest;
    } else {
      assert s[1..] == t[1..] + " " + rest;
      TokenLengthOfToken(t[1..], rest);
    }
  }

  /** A token followed by a space is read back as that token. */
  lemma {:induction false} TokensOfTokenThenSpace(t: string, rest: string)
    requires IsToken(t)
    ensures Tokens(t + " " + rest) == [t] + Tokens(rest)
  {
    var s := t + " " + rest;
    TokenLengthOfToken(t, rest);
    assert s[..|t|] == t;
    assert s[|t|..] == " " + rest;
    assert (" " + rest)[1..] == rest;
  }

  /** Tokenising space-terminated tokens gives the tokens back. */
  lemma {:induction false} TokensOfSpaceTerminated(ts: seq<string>)
    requires forall k :: 0 <= k < |ts| ==> IsToken(ts[k])
    ensures Tokens(SpaceTerminated(ts)) == ts
  {
    if |ts| > 0 {
      TokensOfSpaceTerminated(ts[1..]);
      TokensOfTokenThenSpace(ts[0], SpaceTerminated(ts[1..]));
    }
  }

  /** Emitting one more token appends it and its space. */
  lemma {:induction false} SpaceTerminatedSnoc(ts: seq<string>, t: string)
    ensures SpaceTerminated(ts + [t]) == SpaceTerminated(ts) + t + " "
  {
    if |ts| > 0 {
      assert (ts + [t])[1..] == ts[1..] + [t];
      SpaceTerminatedSnoc(ts[1..], t);
    }
  }

  predicate OccursAt(s: string, pat: string, j: nat) {
    j + |pat| <= |s| && s[j..j + |pat|] == pat
  }

  /** The last start position of `pat` in `s` at or below `k`. */
  function LastOccurrenceFrom(s: string, pat: string, k: nat): (r: Option<nat>)
    ensures r.Some? ==> r.value <= k && OccursAt(s, pat, r.value)
    ensures r.Some? ==> forall j :: r.value < j <= k ==> !OccursAt(s, pat, j)
    ensures r.None? ==> forall j :: 0 <= j <= k ==> !OccursAt(s, pat, j)
  {
    if OccursAt(s, pat, k) then Some(k)
    else if k == 0 then None
    else LastOccurrenceFrom(s, pat, k - 1)
  }

  /** The start of the last occurrence of a non-empty `pat` in `s`. */
  function LastIndexOf(s: string, pat: string): (r: Option<nat>)
    ensures r.Some? ==> |pat| > 0 && OccursAt(s, pat, r.value)
    ensures r.Some? ==> forall j :: r.value < j ==> !OccursAt(s, pat, j)
    ensures r.None? ==> |pat| == 0 || forall j :: !OccursAt(s, pat, j)
  {
    if |pat| == 0 || |s| < |pat| then None else LastOccurrenceFrom(s, pat, |s| - |pat|)
  }

  /**
   * boost::replace_last: the last occurrence of `pat` is replaced by `rep`;
   * with no occurrence (or an empty pattern) the string is unchanged.
   */
  function ReplaceLast(s: string, pat: string, rep: string): (r: string)
    ensures LastIndexOf(s, pat).None? ==> r == s
    ensures LastIndexOf(s, pat).Some? ==>
      var i := LastIndexOf(s, pat).value;
      r == s[..i] + rep + s[i + |pat|..]
  {
    match LastIndexOf(s, pat)
    case None => s
    case Some(i) => s[..i] + rep + s[i + |pat|..]
  }

  /** A string that ends in `pat` has exactly that suffix replaced. */
  lemma ReplaceLastOfSuffix(p: string, pat: string, rep: string)
    requires |pat| > 0
    ensures ReplaceLast(p + pat, pat, rep) == p + rep
  {
    var s := p + pat;
    assert OccursAt(s, pat, |p|) by { assert s[|p|..|p| + |pat|] == pat; }
    var r := LastIndexOf(s, pat);
    assert r == Some(|p|);
    assert s[..|p|] == p;
    assert s[|p| + |pat|..] == [];
  }
}

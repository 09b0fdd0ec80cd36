/**
  The identifier splitter of cellmaps_downloader/gene.py: `re.split('\W*,\W*', geneid)`.

  The pattern matches at position k exactly when the maximal run of non-word
  characters that starts at k contains a comma; the greedy `\W*` on either side
  of the comma makes the match cover that whole run. `re.split` takes the
  leftmost match, emits the text before it, and resumes searching where the
  match ended. A word character is ASCII `[A-Za-z0-9_]` here.
 */
module GeneIdSplit {
  import opened Wrappers

  /** `\w` restricted to ASCII: a letter, a digit or the underscore. */
  predicate IsWordChar(c: char) {
    ('a' <= c <= 'z') || ('A' <= c <= 'Z') || ('0' <= c <= '9') || c == '_'
  }

  /** The end of the run of non-word characters that starts at `from`. */
  function RunEnd(s: string, from: nat): (r: nat)
    requires from <= |s|
    ensures from <= r <= |s|
    ensures forall k :: from <= k < r ==> !IsWordChar(s[k])
    ensures r == |s| || IsWordChar(s[r])
    decreases |s| - from
  {
    if from == |s| || IsWordChar(s[from]) then from else RunEnd(s, from + 1)
  }

  /** `\W*,\W*` matches at position `k`, and the match is `s[k..RunEnd(s, k)]`. */
  predicate MatchAt(s: string, k: nat)
    requires k <= |s|
  {
    ',' in s[k..RunEnd(s, k)]
  }

  /** The leftmost match at or after `from`, as the regular-expression search finds it. */
  function FindMatch(s: string, from: nat): (r: Option<nat>)
    requires from <= |s|
    ensures r.None? ==> forall k :: from <= k < |s| ==> !MatchAt(s, k)
    ensures r.Some? ==> from <= r.value < |s| && MatchAt(s, r.value)
    ensures r.Some? ==> forall k :: from <= k < r.value ==> !MatchAt(s, k)
    decreases |s| - from
  {
    if from == |s| then None
    else if MatchAt(s, from) then Some(from)
    else FindMatch(s, from + 1)
  }

  lemma CommaStartsMatch(s: string, k: nat)
    requires k < |s| && s[k] == ','
    ensures MatchAt(s, k)
  {
    assert s[k..RunEnd(s, k)][0] == ',';
  }

  lemma MatchHasComma(s: string, k: nat) returns (m: nat)
    requires k <= |s| && MatchAt(s, k)
    ensures k <= m < RunEnd(s, k) && s[m] == ','
  {
    var e := RunEnd(s, k);
    var d :| 0 <= d < e - k && s[k..e][d] == ',';
    m := k + d;
  }

  /** A match cannot start just after a non-word character: the run begins earlier. */
  lemma MatchExtendsLeft(s: string, k: nat)
    requires 0 < k <= |s| && !IsWordChar(s[k - 1]) && MatchAt(s, k)
    ensures MatchAt(s, k - 1)
  {
    var m := MatchHasComma(s, k);
    assert RunEnd(s, k - 1) == RunEnd(s, k);
    assert s[k - 1..RunEnd(s, k)][m - (k - 1)] == ',';
  }

  /** The run from `k` ends exactly at `j` when `s[k..j]` is non-word and `j` is a word character or the end. */
  lemma RunEndExact(s: string, k: nat, j: nat)
    requires k <= j <= |s|
    requires forall m :: k <= m < j ==> !IsWordChar(s[m])
    requires j == |s| || IsWordChar(s[j])
    ensures RunEnd(s, k) == j
  {
  }

  /** No comma lies in a stretch where the pattern matches nowhere. */
  lemma NoCommaWithoutMatch(s: string, from: nat, e: nat)
    requires from <= e <= |s|
    requires forall k :: from <= k < e ==> !MatchAt(s, k)
    ensures ',' !in s[from..e]
  {
    if ',' in s[from..e] {
      var d :| 0 <= d < e - from && s[from..e][d] == ',';
      CommaStartsMatch(s, from + d);
    }
  }

  /** No comma precedes the leftmost match. */
  lemma NoCommaBeforeMatch(s: string, from: nat)
    requires from <= |s|
    ensures FindMatch(s, from).None? ==> ',' !in s[from..]
    ensures FindMatch(s, from).Some? ==> ',' !in s[from..FindMatch(s, from).value]
  {
    var r := FindMatch(s, from);
    if r.None? {
      NoCommaWithoutMatch(s, from, |s|);
      assert s[from..|s|] == s[from..];
    } else {
      NoCommaWithoutMatch(s, from, r.value);
    }
  }

  /** A match after the search start follows a word character. */
  lemma WordBeforeMatch(s: string, from: nat)
    requires from <= |s|
    requires FindMatch(s, from).Some? && FindMatch(s, from).value > from
    ensures IsWordChar(s[FindMatch(s, from).value - 1])
  {
    var e := FindMatch(s, from).value;
    if !IsWordChar(s[e - 1]) {
      MatchExtendsLeft(s, e);
    }
  }

  /**
    `re.split('\W*,\W*', s)`: the tokens between the matches, in order. The
    first token is the text up to the first match (a prefix of `s`).
   */
  function Split(s: string): (r: seq<string>)
    ensures |r| >= 1
    ensures forall k :: 0 <= k < |r| ==> ',' !in r[k]
    ensures |r[0]| <= |s| && r[0] == s[..|r[0]|]
    decreases |s|
  {
    NoCommaBeforeMatch(s, 0);
    match FindMatch(s, 0)
    case None => [s]
    case Some(i) => [s[..i]] + Split(s[RunEnd(s, i)..])
  }

  /** The matched separators, one between each two consecutive tokens of `Split(s)`. */
  function Separators(s: string): (r: seq<string>)
    ensures |r| == |Split(s)| - 1
    decreases |s|
  {
    match FindMatch(s, 0)
    case None => []
    case Some(i) => [s[i..RunEnd(s, i)]] + Separators(s[RunEnd(s, i)..])
  }

  /** `toks[0] + seps[0] + toks[1] + ... + seps[n-1] + toks[n]`. */
  function Interleave(toks: seq<string>, seps: seq<string>): (r: string)
    requires |toks| == |seps| + 1
    ensures |toks[0]| <= |r| && r[..|toks[0]|] == toks[0]
    decreases |seps|
  {
    if seps == [] then toks[0] else toks[0] + seps[0] + Interleave(toks[1..], seps[1..])
  }

  /** A text the pattern can match in full: non-empty, only non-word characters, at least one comma. */
  predicate IsSeparator(p: string) {
    |p| > 0 && ',' in p && forall c :: c in p ==> !IsWordChar(c)
  }

  /**
    `s` is `toks` joined by `seps`, where every separator is a whole maximal
    run of non-word characters that contains a comma, and no token contains a comma.
    A separator is bordered by word characters or by the ends of `s`: a token
    before a separator ends with a word character, a token after one starts
    with a word character, and only the first and the last token may be empty.
   */
  predicate IsSplitOf(s: string, toks: seq<string>, seps: seq<string>) {
    && |toks| == |seps| + 1
    && Interleave(toks, seps) == s
    && (forall k :: 0 <= k < |seps| ==> IsSeparator(seps[k]))
    && (forall k :: 0 <= k < |toks| ==> ',' !in toks[k])
    && (forall k :: 0 < k < |seps| ==> toks[k] != [])
    && (forall k :: 0 <= k < |seps| && toks[k] != [] ==> IsWordChar(toks[k][|toks[k]| - 1]))
    && (forall k :: 0 < k < |toks| && toks[k] != [] ==> IsWordChar(toks[k][0]))
  }

  /** `s` is the concatenation of its pieces around `i` and `j`. */
  lemma ThreePieces(s: string, i: nat, j: nat)
    requires i <= j <= |s|
    ensures s == s[..i] + s[i..j] + s[j..]
  {
    assert s[..i] + s[i..j] == s[..j];
    assert s[..j] + s[j..] == s;
  }

  /** One step of `re.split`: the first token, the first separator and the rest of the input. */
  lemma SplitStep(s: string, i: nat, j: nat)
    requires FindMatch(s, 0) == Some(i) && j == RunEnd(s, i)
    ensures Split(s) == [s[..i]] + Split(s[j..])
    ensures Separators(s) == [s[i..j]] + Separators(s[j..])
    ensures s == s[..i] + s[i..j] + s[j..]
    ensures IsSeparator(s[i..j])
    ensures j < |s| ==> IsWordChar(s[j])
  {
    ThreePieces(s, i, j);
    var m := MatchHasComma(s, i);
    assert s[i..j][m - i] == ',';
  }

  /** After the first separator the text starts with a word character, so a further separator is preceded by a non-empty token. */
  lemma NoSeparatorAtStart(s: string)
    requires s == [] || IsWordChar(s[0])
    requires Separators(s) != []
    ensures Split(s)[0] != []
  {
    var i := FindMatch(s, 0).value;
  }

  /** Prepending a token and a separator to a decomposition gives a decomposition. */
  lemma IsSplitOfCons(s: string, t0: string, p0: string, rest: string, ts: seq<string>, ps: seq<string>)
    requires IsSplitOf(rest, ts, ps)
    requires s == t0 + p0 + rest
    requires IsSeparator(p0) && ',' !in t0
    requires t0 != [] ==> IsWordChar(t0[|t0| - 1])
    requires ts[0] != [] ==> IsWordChar(ts[0][0])
    requires ps != [] ==> ts[0] != []
    ensures IsSplitOf(s, [t0] + ts, [p0] + ps)
  {
    var toks, seps := [t0] + ts, [p0] + ps;
    assert toks[1..] == ts && seps[1..] == ps;
    forall k | 0 < k < |seps|
      ensures toks[k] != []
    {
      assert toks[k] == ts[k - 1];
    }
    forall k | 0 <= k < |seps| && toks[k] != []
      ensures IsWordChar(toks[k][|toks[k]| - 1])
    {
      if k > 0 { assert toks[k] == ts[k - 1]; }
    }
    forall k | 0 < k < |toks| && toks[k] != []
      ensures IsWordChar(toks[k][0])
    {
      assert toks[k] == ts[k - 1];
    }
    forall k | 0 <= k < |seps|
      ensures IsSeparator(seps[k])
    {
      if k > 0 { assert seps[k] == ps[k - 1]; }
    }
    forall k | 0 <= k < |toks|
      ensures ',' !in toks[k]
    {
      if k > 0 { assert toks[k] == ts[k - 1]; }
    }
  }

  /** Soundness: `Split` and `Separators` decompose `s` as `IsSplitOf` describes. */
  lemma {:induction false} SplitIsSplitOf(s: string)
    ensures IsSplitOf(s, Split(s), Separators(s))
    decreases |s|
  {
    if FindMatch(s, 0).Some? {
      var i := FindMatch(s, 0).value;
      var j := RunEnd(s, i);
      var rest := s[j..];
      SplitStep(s, i, j);
      if i > 0 { WordBeforeMatch(s, 0); }
      SplitIsSplitOf(rest);
      if Separators(rest) != [] {
        NoSeparatorAtStart(rest);
      }
      if Split(rest)[0] != [] {
        assert Split(rest)[0][0] == s[j];
      }
      IsSplitOfCons(s, s[..i], s[i..j], rest, Split(rest), Separators(rest));
    }
  }

  /** Removing the first token and separator of a decomposition leaves a decomposition. */
  lemma IsSplitOfTail(s: string, toks: seq<string>, seps: seq<string>)
    requires IsSplitOf(s, toks, seps) && |seps| > 0
    ensures IsSplitOf(Interleave(toks[1..], seps[1..]), toks[1..], seps[1..])
  {
    var ts, ps := toks[1..], seps[1..];
    forall k | 0 < k < |ps|
      ensures ts[k] != []
    {
      assert ts[k] == toks[k + 1];
    }
    forall k | 0 <= k < |ps| && ts[k] != []
      ensures IsWordChar(ts[k][|ts[k]| - 1])
    {
      assert ts[k] == toks[k + 1];
    }
    forall k | 0 < k < |ts| && ts[k] != []
      ensures IsWordChar(ts[k][0])
    {
      assert ts[k] == toks[k + 1];
    }
  }

  /** In any decomposition, the pattern matches nowhere inside the first token. */
  lemma NoMatchInFirstToken(s: string, toks: seq<string>, seps: seq<string>, k: nat)
    requires IsSplitOf(s, toks, seps) && |seps| > 0
    requires k < |toks[0]|
    ensures !MatchAt(s, k)
  {
    var t0 := toks[0];
    var i := |t0|;
    assert s[..i] == t0;
    assert IsWordChar(s[i - 1]);
    var e := RunEnd(s, k);
    assert e <= i - 1;
    if MatchAt(s, k) {
      var m := MatchHasComma(s, k);
    }
  }

  /** In any decomposition, the first separator is where the leftmost match starts, and it spans the match. */
  lemma FirstSeparatorIsFirstMatch(s: string, toks: seq<string>, seps: seq<string>)
    requires IsSplitOf(s, toks, seps) && |seps| > 0
    ensures FindMatch(s, 0) == Some(|toks[0]|)
    ensures RunEnd(s, |toks[0]|) == |toks[0]| + |seps[0]|
  {
    var t0, p0 := toks[0], seps[0];
    var ts, ps := toks[1..], seps[1..];
    var rest := Interleave(ts, ps);
    assert s == t0 + p0 + rest;
    var i, j := |t0|, |t0| + |p0|;
    assert s[i..j] == p0 && s[j..] == rest;
    forall m | i <= m < j
      ensures !IsWordChar(s[m])
    {
      assert s[m] == p0[m - i];
    }
    if j < |s| {
      assert ts[0] != [] by {
        if |ps| == 0 { assert rest == ts[0]; }
      }
      assert s[j] == rest[0] == ts[0][0];
      assert IsWordChar(toks[1][0]);
    }
    RunEndExact(s, i, j);
    assert MatchAt(s, i);
    forall k | 0 <= k < i
      ensures !MatchAt(s, k)
    {
      NoMatchInFirstToken(s, toks, seps, k);
    }
  }

  /**
    Uniqueness: any decomposition with the properties of `IsSplitOf` is the one
    `re.split` produces, so `IsSplitOf` is an independent definition of `Split`.
   */
  lemma {:induction false} SplitUnique(s: string, toks: seq<string>, seps: seq<string>)
    requires IsSplitOf(s, toks, seps)
    ensures toks == Split(s) && seps == Separators(s)
    decreases |seps|
  {
    if seps == [] {
      if FindMatch(s, 0).Some? {
        var m := MatchHasComma(s, FindMatch(s, 0).value);
      }
    } else {
      var ts, ps := toks[1..], seps[1..];
      var rest := Interleave(ts, ps);
      var i, j := |toks[0]|, |toks[0]| + |seps[0]|;
      FirstSeparatorIsFirstMatch(s, toks, seps);
      SplitStep(s, i, j);
      assert s == toks[0] + seps[0] + rest;
      assert s[..i] == toks[0] && s[i..j] == seps[0] && s[j..] == rest;
      IsSplitOfTail(s, toks, seps);
      SplitUnique(rest, ts, ps);
      assert toks == [toks[0]] + ts;
      assert seps == [seps[0]] + ps;
    }
  }

  /** A raw identifier without a comma is one token, unchanged. */
  lemma SplitWithoutComma(s: string)
    requires ',' !in s
    ensures Split(s) == [s]
  {
    if FindMatch(s, 0).Some? {
      var m := MatchHasComma(s, FindMatch(s, 0).value);
      assert false;
    }
  }

  /** More than one token comes out exactly when the raw identifier holds a comma. */
  lemma MultipleTokensIffComma(s: string)
    ensures |Split(s)| > 1 <==> ',' in s
  {
    if ',' in s {
      var k :| 0 <= k < |s| && s[k] == ',';
      CommaStartsMatch(s, k);
      assert FindMatch(s, 0).Some?;
    } else {
      SplitWithoutComma(s);
    }
  }
}

/**
  The log scanner: `re.findall(r'Approval ID[:：]\s*([A-Z0-9]+)', content)`
  written out as a left-to-right, non-overlapping scan over the decoded log
  text. A match is the literal `Approval ID`, an ASCII colon or a full-width
  colon (U+FF1A), any run of whitespace, then a greedy non-empty run of
  `[A-Z0-9]`; the scan reports the run captured by the group.
*/
module LogScan {
  import opened Wrappers
  import opened Text

  const Marker: string := "Approval ID"

  /** The character class `[:：]`. */
  predicate IsColon(c: char) {
    c == ':' || c == '\U{FF1A}'
  }

  /** The literal `Approval ID` starts at `i`. */
  predicate WordAt(s: string, i: nat) {
    i + |Marker| <= |s| && s[i..i + |Marker|] == Marker
  }

  /** `Approval ID` followed by one of the two colons starts at `i`. */
  predicate MarkerAt(s: string, i: nat) {
    WordAt(s, i) && i + |Marker| < |s| && IsColon(s[i + |Marker|])
  }

  predicate SpacesBetween(s: string, lo: nat, hi: nat)
    requires lo <= hi <= |s|
  {
    forall k :: lo <= k < hi ==> IsSpace(s[k])
  }

  predicate CodeCharsBetween(s: string, lo: nat, hi: nat)
    requires lo <= hi <= |s|
  {
    forall k :: lo <= k < hi ==> IsCodeChar(s[k])
  }

  /**
    The pattern matches `s[i..ce]` with its group capturing `s[cs..ce]`
    (not necessarily the greedy span).
  */
  predicate MatchesAt(s: string, i: nat, cs: nat, ce: nat) {
    && MarkerAt(s, i)
    && i + |Marker| + 1 <= cs < ce <= |s|
    && SpacesBetween(s, i + |Marker| + 1, cs)
    && CodeCharsBetween(s, cs, ce)
  }

  /** One match: where the marker starts, and the span of the captured code. */
  datatype Match = Match(start: nat, codeStart: nat, codeEnd: nat)

  /** A match whose group is as long as `[A-Z0-9]+` makes it: nothing of the class follows. */
  predicate GreedyMatch(s: string, m: Match) {
    && MatchesAt(s, m.start, m.codeStart, m.codeEnd)
    && (m.codeEnd == |s| || !IsCodeChar(s[m.codeEnd]))
  }

  /** `\s*`: the first position at or after `j` that is not whitespace. */
  function SkipSpaces(s: string, j: nat): (k: nat)
    requires j <= |s|
    ensures j <= k <= |s| && SpacesBetween(s, j, k)
    ensures k == |s| || !IsSpace(s[k])
    decreases |s| - j
  {
    if j < |s| && IsSpace(s[j]) then SkipSpaces(s, j + 1) else j
  }

  /** `[A-Z0-9]*`, greedy: the first position at or after `j` outside the class. */
  function SkipCode(s: string, j: nat): (k: nat)
    requires j <= |s|
    ensures j <= k <= |s| && CodeCharsBetween(s, j, k)
    ensures k == |s| || !IsCodeChar(s[k])
    decreases |s| - j
  {
    if j < |s| && IsCodeChar(s[j]) then SkipCode(s, j + 1) else j
  }

  /** Whitespace and code characters never overlap, so the group of any match starts where `\s*` stops. */
  lemma CodeStartsAfterSpaces(s: string, i: nat, cs: nat, ce: nat)
    requires MatchesAt(s, i, cs, ce)
    ensures SkipSpaces(s, i + |Marker| + 1) == cs
  {
    CodeCharIsNotSpace(s[cs]);
  }

  /**
    Tries the pattern at position `i`: the match starting there, if there is
    one. `MatchAtSound` shows a found match is the greedy one, and
    `MatchAtComplete` that `None` comes back only when no span matches.
  */
  function MatchAt(s: string, i: nat): (r: Option<Match>)
    ensures r.Some? ==> r.value.start == i < r.value.codeStart < r.value.codeEnd <= |s|
  {
    if !MarkerAt(s, i) then None
    else
      var cs := SkipSpaces(s, i + |Marker| + 1);
      if cs == |s| || !IsCodeChar(s[cs]) then
        None
      else
        Some(Match(i, cs, SkipCode(s, cs)))
  }

  /** A match found at `i` is the greedy match of the pattern there. */
  lemma MatchAtSound(s: string, i: nat)
    requires MatchAt(s, i).Some?
    ensures GreedyMatch(s, MatchAt(s, i).value)
  {
  }

  /**
    Whenever the pattern matches some span at `i`, trying it there succeeds:
    the group starts where that span's group does and reaches at least as far.
  */
  lemma MatchAtComplete(s: string, i: nat, cs: nat, ce: nat)
    requires MatchesAt(s, i, cs, ce)
    ensures MatchAt(s, i).Some?
    ensures MatchAt(s, i).value.codeStart == cs && ce <= MatchAt(s, i).value.codeEnd
  {
    CodeStartsAfterSpaces(s, i, cs, ce);
  }

  /**
    What trying the pattern at a position can give: at each position `i`
    either nothing, or a match that starts at `i` and ends after `i`
    within the text.
  */
  predicate WellFormedHits(hits: seq<Option<Match>>) {
    forall i :: 0 <= i < |hits| && hits[i].Some? ==>
      hits[i].value.start == i < hits[i].value.codeStart < hits[i].value.codeEnd <= |hits|
  }

  /** The outcome of trying the pattern at every position of `s`. */
  function Hits(s: string): (hits: seq<Option<Match>>)
    ensures |hits| == |s| && WellFormedHits(hits)
    ensures forall i :: 0 <= i < |s| ==> hits[i] == MatchAt(s, i)
  {
    seq(|s|, i requires 0 <= i < |s| => MatchAt(s, i))
  }

  /**
    The way `re.findall` walks the text, given what the pattern yields at
    each position: from `from` on, a hit is reported and the walk resumes
    where it ends; a miss moves on by one position. Every reported match is
    the hit at its own start, lies at or after `from`, and the matches come
    in text order without overlapping.
  */
  function Scan(hits: seq<Option<Match>>, from: nat): (ms: seq<Match>)
    requires from <= |hits| && WellFormedHits(hits)
    ensures forall k :: 0 <= k < |ms| ==>
      from <= ms[k].start < |hits| && hits[ms[k].start] == Some(ms[k])
    ensures forall j, k :: 0 <= j < k < |ms| ==> ms[j].codeEnd <= ms[k].start
    decreases |hits| - from
  {
    if from == |hits| then []
    else
      match hits[from]
      case Some(m) => [m] + Scan(hits, m.codeEnd)
      case None => Scan(hits, from + 1)
  }

  /**
    The walk skips nothing: every position at or after `from` where the
    pattern yields a hit lies inside one of the reported matches (at its
    start when no earlier match covers it).
  */
  lemma {:induction false} ScanComplete(hits: seq<Option<Match>>, from: nat, p: nat)
    returns (k: nat)
    requires WellFormedHits(hits) && from <= p < |hits| && hits[p].Some?
    ensures k < |Scan(hits, from)|
    ensures Scan(hits, from)[k].start <= p < Scan(hits, from)[k].codeEnd
    decreases |hits| - from
  {
    var ms := Scan(hits, from);
    match hits[from]
    case Some(m) =>
      assert ms == [m] + Scan(hits, m.codeEnd);
      if p < m.codeEnd {
        k := 0;
      } else {
        var k' := ScanComplete(hits, m.codeEnd, p);
        assert ms[k' + 1] == Scan(hits, m.codeEnd)[k'];
        k := k' + 1;
      }
    case None =>
      assert ms == Scan(hits, from + 1);
      k := ScanComplete(hits, from + 1, p);
  }

  /** The matches `re.findall` reports when it starts looking at `from`. */
  function FindAll(s: string, from: nat): (ms: seq<Match>)
    requires from <= |s|
    ensures forall k :: 0 <= k < |ms| ==> from <= ms[k].start && MatchAt(s, ms[k].start) == Some(ms[k])
    ensures forall j, k :: 0 <= j < k < |ms| ==> ms[j].codeEnd <= ms[k].start
  {
    Scan(Hits(s), from)
  }

  /**
    The scan misses nothing: every position at or after `from` where the
    pattern matches lies inside one of the reported matches.
  */
  lemma FindAllComplete(s: string, from: nat, p: nat) returns (k: nat)
    requires from <= p && MatchAt(s, p).Some?
    ensures k < |FindAll(s, from)|
    ensures FindAll(s, from)[k].start <= p < FindAll(s, from)[k].codeEnd
  {
    k := ScanComplete(Hits(s), from, p);
  }

  /** A code as the group `([A-Z0-9]+)` can capture it. */
  predicate IsApprovalCode(c: string) {
    |c| > 0 && forall k :: 0 <= k < |c| ==> IsCodeChar(c[k])
  }

  /** Every reported match is the greedy match of the pattern at its start. */
  lemma FindAllSound(s: string, from: nat, k: nat)
    requires from <= |s| && k < |FindAll(s, from)|
    ensures GreedyMatch(s, FindAll(s, from)[k])
  {
    MatchAtSound(s, FindAll(s, from)[k].start);
  }

  /** What `re.findall` returns: the captured code of every match, in order. */
  function ExtractApprovalIds(content: string): (ids: seq<string>)
    ensures |ids| == |FindAll(content, 0)|
    ensures forall k :: 0 <= k < |ids| ==>
      var m := FindAll(content, 0)[k];
      m.codeStart <= m.codeEnd <= |content| && ids[k] == content[m.codeStart..m.codeEnd]
    ensures forall k :: 0 <= k < |ids| ==> IsApprovalCode(ids[k])
  {
    var ms := FindAll(content, 0);
    var ids := seq(|ms|, k requires 0 <= k < |ms| => content[ms[k].codeStart..ms[k].codeEnd]);
    assert forall k :: 0 <= k < |ids| ==> IsApprovalCode(ids[k]) by {
      forall k | 0 <= k < |ids| ensures IsApprovalCode(ids[k]) {
        FindAllSound(content, 0, k);
      }
    }
    ids
  }

  /**
    Each reported code is the greedy group of a match in the text: it follows
    `Approval ID`, a colon and only whitespace, and is not followed by
    another character of `[A-Z0-9]`.
  */
  lemma ApprovalIdOrigin(content: string, k: nat) returns (m: Match)
    requires k < |ExtractApprovalIds(content)|
    ensures m == FindAll(content, 0)[k] && GreedyMatch(content, m)
    ensures ExtractApprovalIds(content)[k] == content[m.codeStart..m.codeEnd]
  {
    m := FindAll(content, 0)[k];
    FindAllSound(content, 0, k);
  }

  /**
    The codes come back in text order: the code reported at position `j`
    ends before the marker of the code reported at `k` starts.
  */
  lemma ApprovalIdsInTextOrder(content: string, j: nat, k: nat) returns (mj: Match, mk: Match)
    requires j < k < |ExtractApprovalIds(content)|
    ensures mj == FindAll(content, 0)[j] && mk == FindAll(content, 0)[k]
    ensures GreedyMatch(content, mj) && GreedyMatch(content, mk)
    ensures ExtractApprovalIds(content)[j] == content[mj.codeStart..mj.codeEnd]
    ensures ExtractApprovalIds(content)[k] == content[mk.codeStart..mk.codeEnd]
    ensures mj.codeEnd <= mk.start
  {
    var ms := FindAll(content, 0);
    mj, mk := ms[j], ms[k];
    FindAllSound(content, 0, j);
    FindAllSound(content, 0, k);
  }

  /**
    Every occurrence of the pattern in the text is reported: either its own
    code, or the match that covers its start.
  */
  lemma ApprovalIdsComplete(content: string, p: nat, cs: nat, ce: nat) returns (k: nat, m: Match)
    requires MatchesAt(content, p, cs, ce)
    ensures k < |ExtractApprovalIds(content)| && m == FindAll(content, 0)[k] && GreedyMatch(content, m)
    ensures ExtractApprovalIds(content)[k] == content[m.codeStart..m.codeEnd]
    ensures m.start <= p < m.codeEnd
  {
    MatchAtComplete(content, p, cs, ce);
    k := FindAllComplete(content, 0, p);
    m := FindAll(content, 0)[k];
    FindAllSound(content, 0, k);
  }

  /** Text in which `Approval ID` never occurs yields no codes. */
  lemma NoMarkerNoIds(content: string)
    requires forall i: nat :: !WordAt(content, i)
    ensures ExtractApprovalIds(content) == []
  {
    var ms := FindAll(content, 0);
    if |ms| > 0 {
      FindAllSound(content, 0, 0);
    }
  }

  /** A log line with one entry: the code after the colon and the blank is captured. */
  lemma ScanExample()
    ensures ExtractApprovalIds("Approval ID: AB12") == ["AB12"]
  {
    var s := "Approval ID: AB12";
    assert s[0..11] == Marker;
    assert SkipSpaces(s, 13) == 13;
    assert SkipSpaces(s, 12) == 13;
    assert SkipCode(s, 17) == 17;
    assert SkipCode(s, 16) == 17;
    assert SkipCode(s, 15) == 17;
    assert SkipCode(s, 14) == 17;
    assert SkipCode(s, 13) == 17;
    assert MatchAt(s, 0) == Some(Match(0, 13, 17));
    assert FindAll(s, 17) == [];
    assert FindAll(s, 0) == [Match(0, 13, 17)];
    var ids := ExtractApprovalIds(s);
    assert ids[0] == s[13..17] == "AB12";
  }

}

/**
  Reconciliation: `unmatched = sorted(set(auth_codes) - set(approval_ids))`
  and the count reported beside it. Python orders strings lexicographically
  by code point, which `Precedes` spells out (Dafny's own `<` on sequences
  means "proper prefix" instead).
*/
module Reconcile {
  import opened Wrappers
  import PayDetail
  import LogScan
  import Text

  /** Python's `a < b` on `str`: lexicographic by code point, a proper prefix first. */
  predicate Precedes(a: string, b: string)
    ensures Precedes(a, b) ==> |b| > 0
    decreases |a|
  {
    if |a| == 0 then |b| > 0
    else if |b| == 0 then false
    else a[0] < b[0] || (a[0] == b[0] && Precedes(a[1..], b[1..]))
  }

  /** A string precedes every longer string it is a prefix of. */
  lemma {:induction false} PrefixPrecedes(a: string, b: string)
    requires |a| < |b| && a == b[..|a|]
    ensures Precedes(a, b)
    decreases |a|
  {
    if |a| > 0 {
      assert a[1..] == b[1..][..|a| - 1];
      PrefixPrecedes(a[1..], b[1..]);
    }
  }

  /** A string precedes every string it first differs from by a smaller character. */
  lemma {:induction false} DifferencePrecedes(a: string, b: string, i: nat)
    requires i < |a| && i < |b| && a[..i] == b[..i] && a[i] < b[i]
    ensures Precedes(a, b)
    decreases i
  {
    if i > 0 {
      assert a[0] == a[..i][0] && b[0] == b[..i][0];
      assert a[1..][..i - 1] == b[1..][..i - 1] by {
        assert a[1..][..i - 1] == a[..i][1..];
        assert b[1..][..i - 1] == b[..i][1..];
      }
      DifferencePrecedes(a[1..], b[1..], i - 1);
    }
  }

  /** Conversely, `Precedes` holds only for a proper prefix or at a smaller first difference. */
  lemma {:induction false} PrecedesWitness(a: string, b: string) returns (i: nat)
    requires Precedes(a, b)
    ensures (|a| < |b| && a == b[..|a|]) || (i < |a| && i < |b| && a[..i] == b[..i] && a[i] < b[i])
    decreases |a|
  {
    if |a| == 0 {
      i := 0;
    } else if a[0] < b[0] {
      i := 0;
    } else {
      var j := PrecedesWitness(a[1..], b[1..]);
      i := j + 1;
      if |a| < |b| && a[1..] == b[1..][..|a| - 1] {
        assert a == [a[0]] + a[1..];
        assert b[..|a|] == [b[0]] + b[1..][..|a| - 1];
      } else {
        assert a[..i] == [a[0]] + a[1..][..j];
        assert b[..i] == [b[0]] + b[1..][..j];
      }
    }
  }

  /**
    `Precedes` is the textbook lexicographic order: `a` is a proper prefix of
    `b`, or at the first position where they differ `a` has the smaller
    character.
  */
  lemma PrecedesIsLexicographic(a: string, b: string)
    ensures Precedes(a, b) <==>
      (|a| < |b| && a == b[..|a|]) ||
      (exists i :: 0 <= i < |a| && i < |b| && a[..i] == b[..i] && a[i] < b[i])
  {
    if Precedes(a, b) {
      var i := PrecedesWitness(a, b);
    }
    if |a| < |b| && a == b[..|a|] {
      PrefixPrecedes(a, b);
    }
    if exists i :: 0 <= i < |a| && i < |b| && a[..i] == b[..i] && a[i] < b[i] {
      var i :| 0 <= i < |a| && i < |b| && a[..i] == b[..i] && a[i] < b[i];
      DifferencePrecedes(a, b, i);
    }
  }

  lemma {:induction false} PrecedesIrreflexive(a: string)
    ensures !Precedes(a, a)
    decreases |a|
  {
    if |a| > 0 {
      PrecedesIrreflexive(a[1..]);
    }
  }

  lemma {:induction false} PrecedesAsymmetric(a: string, b: string)
    ensures Precedes(a, b) ==> !Precedes(b, a)
    decreases |a|
  {
    if |a| > 0 && |b| > 0 {
      PrecedesAsymmetric(a[1..], b[1..]);
    }
  }

  lemma {:induction false} PrecedesTransitive(a: string, b: string, c: string)
    ensures Precedes(a, b) && Precedes(b, c) ==> Precedes(a, c)
    decreases |a|
  {
    if |a| > 0 && |b| > 0 && |c| > 0 {
      PrecedesTransitive(a[1..], b[1..], c[1..]);
    }
  }

  /** Any two distinct strings are ordered one way or the other. */
  lemma {:induction false} PrecedesTotal(a: string, b: string)
    ensures a == b || Precedes(a, b) || Precedes(b, a)
    decreases |a|
  {
    if |a| > 0 && |b| > 0 {
      PrecedesTotal(a[1..], b[1..]);
      if a[0] == b[0] && a[1..] == b[1..] {
        assert a == [a[0]] + a[1..] && b == [b[0]] + b[1..];
      }
    }
  }

  /** Strictly ascending, as `sorted` leaves a set. */
  predicate StrictlyAscending(s: seq<string>) {
    forall j, k :: 0 <= j < k < |s| ==> Precedes(s[j], s[k])
  }

  /** A strictly ascending sequence holds no element twice. */
  lemma AscendingIsDistinct(s: seq<string>, j: nat, k: nat)
    requires StrictlyAscending(s) && j < k < |s|
    ensures s[j] != s[k]
  {
    PrecedesIrreflexive(s[j]);
  }

  function Elems(s: seq<string>): set<string> {
    set x | x in s
  }

  lemma ElemsCons(x: string, s: seq<string>)
    ensures Elems([x] + s) == {x} + Elems(s)
  {
  }

  /** Adds `x` to an ascending sequence at its place, unless it is there already. */
  function Insert(x: string, xs: seq<string>): (r: seq<string>)
    requires StrictlyAscending(xs)
    ensures StrictlyAscending(r)
    ensures Elems(r) == Elems(xs) + {x}
    ensures |r| > 0 && (r[0] == x || (|xs| > 0 && r[0] == xs[0]))
  {
    if |xs| == 0 then [x]
    else if x == xs[0] then xs
    else if Precedes(x, xs[0]) then
      assert forall k :: 0 <= k < |xs| ==> Precedes(x, xs[k]) by {
        forall k | 0 <= k < |xs| ensures Precedes(x, xs[k]) {
          PrecedesTransitive(x, xs[0], xs[k]);
        }
      }
      [x] + xs
    else
      PrecedesTotal(x, xs[0]);
      var rest := Insert(x, xs[1..]);
      assert Elems(xs) == {xs[0]} + Elems(xs[1..]) by {
        assert xs == [xs[0]] + xs[1..];
        ElemsCons(xs[0], xs[1..]);
      }
      ElemsCons(xs[0], rest);
      HeadPrecedesInserted(x, xs, rest);
      [xs[0]] + rest
  }

  /** Every element of `Insert(x, xs[1..])` comes after `xs[0]` when `x` does. */
  lemma HeadPrecedesInserted(x: string, xs: seq<string>, rest: seq<string>)
    requires StrictlyAscending(xs) && |xs| > 0 && Precedes(xs[0], x)
    requires Elems(rest) == Elems(xs[1..]) + {x}
    ensures forall k :: 0 <= k < |rest| ==> Precedes(xs[0], rest[k])
  {
    forall k | 0 <= k < |rest| ensures Precedes(xs[0], rest[k]) {
      assert rest[k] in Elems(rest);
      if rest[k] != x {
        var i :| 1 <= i < |xs| && xs[i] == rest[k];
      }
    }
  }

  /** `sorted(set(xs))`: the distinct elements of `xs` in ascending order. */
  function SortDistinct(xs: seq<string>): (r: seq<string>)
    ensures StrictlyAscending(r)
    ensures Elems(r) == Elems(xs)
  {
    if |xs| == 0 then []
    else
      assert Elems(xs) == {xs[0]} + Elems(xs[1..]) by {
        assert xs == [xs[0]] + xs[1..];
        ElemsCons(xs[0], xs[1..]);
      }
      Insert(xs[0], SortDistinct(xs[1..]))
  }

  /** The settlement codes that do not occur among the log codes, in their original order. */
  function NotLogged(authCodes: seq<string>, approvalIds: seq<string>): (r: seq<string>)
    ensures Elems(r) == Elems(authCodes) - Elems(approvalIds)
  {
    if |authCodes| == 0 then []
    else
      assert Elems(authCodes) == {authCodes[0]} + Elems(authCodes[1..]) by {
        assert authCodes == [authCodes[0]] + authCodes[1..];
        ElemsCons(authCodes[0], authCodes[1..]);
      }
      var rest := NotLogged(authCodes[1..], approvalIds);
      assert authCodes[0] in approvalIds <==> authCodes[0] in Elems(approvalIds);
      ElemsCons(authCodes[0], rest);
      if authCodes[0] in approvalIds then rest else [authCodes[0]] + rest
  }

  /**
    `sorted(set(auth_codes) - set(approval_ids))`: strictly ascending, and
    holding exactly the settlement codes that the log lacks.
  */
  function Unmatched(authCodes: seq<string>, approvalIds: seq<string>): (u: seq<string>)
    ensures StrictlyAscending(u)
    ensures Elems(u) == Elems(authCodes) - Elems(approvalIds)
  {
    SortDistinct(NotLogged(authCodes, approvalIds))
  }

  /** A sequence without repeats has as many elements as it has distinct ones. */
  lemma {:induction false} AscendingCardinality(s: seq<string>)
    requires StrictlyAscending(s)
    ensures |Elems(s)| == |s|
  {
    if |s| > 0 {
      AscendingCardinality(s[1..]);
      assert s == [s[0]] + s[1..];
      assert Elems(s) == {s[0]} + Elems(s[1..]);
      PrecedesIrreflexive(s[0]);
      assert s[0] !in Elems(s[1..]);
    }
  }

  /** The reported count `len(unmatched)` is the size of the set difference. */
  lemma UnmatchedCount(authCodes: seq<string>, approvalIds: seq<string>)
    ensures |Unmatched(authCodes, approvalIds)| == |Elems(authCodes) - Elems(approvalIds)|
  {
    AscendingCardinality(Unmatched(authCodes, approvalIds));
  }

  /** Membership in `unmatched`, element by element, in both directions. */
  lemma UnmatchedMembership(authCodes: seq<string>, approvalIds: seq<string>, c: string)
    ensures c in Unmatched(authCodes, approvalIds) <==> c in authCodes && c !in approvalIds
  {
    var u := Unmatched(authCodes, approvalIds);
    assert c in u <==> c in Elems(u);
    assert c in authCodes <==> c in Elems(authCodes);
    assert c in approvalIds <==> c in Elems(approvalIds);
  }

  /** When every settlement code shows up in the log, nothing is unmatched. */
  lemma AllLoggedNoneUnmatched(authCodes: seq<string>, approvalIds: seq<string>)
    requires forall k :: 0 <= k < |authCodes| ==> authCodes[k] in approvalIds
    ensures Unmatched(authCodes, approvalIds) == []
  {
    var u := Unmatched(authCodes, approvalIds);
    if |u| > 0 {
      UnmatchedMembership(authCodes, approvalIds, u[0]);
    }
  }

  /** The outcome of one comparison run: the unmatched codes and the count displayed beside them. */
  datatype Report = Report(unmatched: seq<string>, count: nat)

  /**
    One comparison run: the settlement codes of the sheet against the
    approval codes of the log text.
  */
  function Compare(sheet: PayDetail.Sheet, logText: string): (r: Report)
    requires PayDetail.Rectangular(sheet)
    ensures StrictlyAscending(r.unmatched)
    ensures Elems(r.unmatched) == Elems(PayDetail.ExtractAuthCodes(sheet)) - Elems(LogScan.ExtractApprovalIds(logText))
    ensures r.count == |Elems(PayDetail.ExtractAuthCodes(sheet)) - Elems(LogScan.ExtractApprovalIds(logText))|
  {
    var u := Unmatched(PayDetail.ExtractAuthCodes(sheet), LogScan.ExtractApprovalIds(logText));
    UnmatchedCount(PayDetail.ExtractAuthCodes(sheet), LogScan.ExtractApprovalIds(logText));
    Report(u, |u|)
  }

  /** An unreadable workbook, or one without the column, leaves nothing unmatched. */
  lemma NoColumnNothingUnmatched(sheet: PayDetail.Sheet, logText: string)
    requires PayDetail.Rectangular(sheet)
    requires sheet.Unreadable? || PayDetail.AuthCodeColumn !in sheet.columns
    ensures Compare(sheet, logText) == Report([], 0)
  {
  }

  /**
    Every unmatched code comes from the settlement sheet's authorization-code
    column (the stripped value of a present cell in some data row) and is
    not the code of any `Approval ID` entry of the log.
  */
  lemma UnmatchedCodeOrigin(sheet: PayDetail.Sheet, logText: string, k: nat) returns (c: nat, row: nat)
    requires PayDetail.Rectangular(sheet)
    requires k < |Compare(sheet, logText).unmatched|
    ensures sheet.Table? && c < |sheet.columns| && sheet.columns[c] == PayDetail.AuthCodeColumn
    ensures row < |sheet.rows| && sheet.rows[row][c].Some?
    ensures Compare(sheet, logText).unmatched[k] == Text.Strip(sheet.rows[row][c].value)
    ensures forall j :: 0 <= j < |LogScan.ExtractApprovalIds(logText)| ==>
      LogScan.ExtractApprovalIds(logText)[j] != Compare(sheet, logText).unmatched[k]
  {
    var codes := PayDetail.ExtractAuthCodes(sheet);
    var ids := LogScan.ExtractApprovalIds(logText);
    var u := Compare(sheet, logText).unmatched;
    UnmatchedMembership(codes, ids, u[k]);
    assert u[k] in codes;
    var idx;
    c, idx := PayDetail.AuthCodesFromColumn(sheet);
    var i :| 0 <= i < |codes| && codes[i] == u[k];
    row := idx[i];
  }

  /** Duplicate settlement codes are reported once; codes found in the log are not reported. */
  lemma UnmatchedExample()
    ensures Unmatched(["100300", "100200", "100300"], ["100200"]) == ["100300"]
  {
  }

}

/**
 * The unit pattern `\[([^\[\]]*)\]`: an opening bracket, a run of characters
 * that are neither `[` nor `]`, and a closing bracket. The pattern is
 * written out as a scan; `FindGroup` plays the part of `preg_match` (the
 * leftmost match) and `RemoveUnits` the part of `preg_replace` with an empty
 * replacement (every match, left to right, in one pass).
 */
module UnitPattern {
  import opened Wrappers

  predicate IsBracket(ch: char)
  {
    ch == '[' || ch == ']'
  }

  /** The pattern matches `s[i..k + 1]`: `[` at `i`, `]` at `k`, no bracket between. */
  predicate GroupAt(s: string, i: int, k: int)
  {
    0 <= i < k < |s| && s[i] == '[' && s[k] == ']' &&
    forall m :: i < m < k ==> !IsBracket(s[m])
  }

  /** A match starting at `i` can end in only one place. */
  lemma GroupEndUnique(s: string, i: int, k: int, k': int)
    ensures GroupAt(s, i, k) && GroupAt(s, i, k') ==> k == k'
  {
  }

  /** Two matches never overlap: one that starts inside another is that same match. */
  lemma GroupsDisjoint(s: string, i: int, k: int, i': int, k': int)
    ensures GroupAt(s, i, k) && GroupAt(s, i', k') && i <= i' <= k ==> i == i' && k == k'
  {
    GroupEndUnique(s, i, k, k');
  }

  /** Matches are found the same way in a suffix, shifted by the suffix's offset. */
  lemma GroupShift(s: string, p: nat, i: nat, k: int)
    requires p <= |s|
    ensures GroupAt(s[p..], i, k) <==> GroupAt(s, p + i, p + k)
  {
    var t := s[p..];
    assert forall m :: 0 <= m < |t| ==> t[m] == s[p + m];
    if GroupAt(s, p + i, p + k) {
      forall m | i < m < k ensures !IsBracket(t[m]) {
        assert !IsBracket(s[p + m]);
      }
    }
  }

  /** The first bracket at or after `j` is a `]` at `k`. */
  predicate ClosesAt(s: string, j: int, k: int)
  {
    0 <= j <= k < |s| && s[k] == ']' && forall m :: j <= m < k ==> !IsBracket(s[m])
  }

  /**
   * The closing part of the pattern from `j` on: the first bracket at or
   * after `j` must be `]`, and that is where the match ends.
   */
  function CloseFrom(s: string, j: nat): (r: Option<nat>)
    requires j <= |s|
    ensures r.Some? ==> ClosesAt(s, j, r.value)
    ensures r.None? ==> forall k :: !ClosesAt(s, j, k)
    decreases |s| - j
  {
    if j == |s| then None
    else if s[j] == ']' then Some(j)
    else if s[j] == '[' then None
    else
      var r := CloseFrom(s, j + 1);
      assert forall k :: ClosesAt(s, j, k) ==> ClosesAt(s, j + 1, k);
      r
  }

  /** Where a match starting at offset `i` ends, if the pattern matches there. */
  function MatchEnd(s: string, i: nat): (r: Option<nat>)
    requires i < |s|
    ensures r.Some? ==> GroupAt(s, i, r.value)
    ensures r.None? ==> forall k :: !GroupAt(s, i, k)
  {
    assert forall k :: GroupAt(s, i, k) <==> s[i] == '[' && ClosesAt(s, i + 1, k);
    if s[i] == '[' then CloseFrom(s, i + 1) else None
  }

  /**
   * `preg_match` from offset `from`: the leftmost match, as the pair of the
   * positions of its two brackets.
   */
  function FindGroup(s: string, from: nat): (r: Option<(nat, nat)>)
    requires from <= |s|
    ensures r.Some? ==> from <= r.value.0 && GroupAt(s, r.value.0, r.value.1)
    ensures r.Some? ==> forall i, k :: from <= i < r.value.0 ==> !GroupAt(s, i, k)
    ensures r.None? ==> forall i, k :: from <= i ==> !GroupAt(s, i, k)
    decreases |s| - from
  {
    if from == |s| then None
    else
      match MatchEnd(s, from)
      case Some(k) => Some((from, k))
      case None => FindGroup(s, from + 1)
  }

  /**
   * `preg_replace(UNIT_REGEX, '', s)`: a single left-to-right pass that drops
   * each match and resumes right after it. What is left is not scanned again.
   */
  function RemoveUnits(s: string): (r: string)
    ensures |r| <= |s|
    decreases |s|
  {
    if s == [] then []
    else
      match MatchEnd(s, 0)
      case Some(k) => RemoveUnits(s[k + 1..])
      case None => [s[0]] + RemoveUnits(s[1..])
  }

  /** The pass only deletes characters. */
  lemma {:induction false} RemoveUnitsAvoids(s: string, ch: char)
    requires ch !in s
    ensures ch !in RemoveUnits(s)
    decreases |s|
  {
    if s != [] {
      match MatchEnd(s, 0)
      case Some(k) =>
        assert ch !in s[k + 1..];
        RemoveUnitsAvoids(s[k + 1..], ch);
      case None =>
        assert ch !in s[1..];
        RemoveUnitsAvoids(s[1..], ch);
    }
  }

  /** When no match starts at 0, the leftmost match of `s` is that of `s[1..]`, shifted. */
  lemma FindGroupTail(s: string)
    requires |s| > 0 && MatchEnd(s, 0).None?
    ensures FindGroup(s[1..], 0).None? ==> FindGroup(s, 0).None?
    ensures FindGroup(s[1..], 0).Some? ==>
      FindGroup(s, 0) == Some((FindGroup(s[1..], 0).value.0 + 1, FindGroup(s[1..], 0).value.1 + 1))
  {
    var t := s[1..];
    forall i, k | 1 <= i ensures GroupAt(t, i - 1, k - 1) <==> GroupAt(s, i, k) {
      GroupShift(s, 1, i - 1, k - 1);
    }
    match FindGroup(t, 0)
    case None =>
      assert FindGroup(s, 0).None?;
    case Some(g) =>
      assert GroupAt(s, g.0 + 1, g.1 + 1);
      var h := FindGroup(s, 0).value;
      assert h.0 >= 1;
      GroupShift(s, 1, h.0 - 1, h.1 - 1);
      assert h.0 == g.0 + 1;
      GroupEndUnique(s, h.0, h.1, g.1 + 1);
  }

  /** Where the pattern matches nowhere, the pass changes nothing. */
  lemma {:induction false} RemoveUnitsNoMatch(s: string)
    requires FindGroup(s, 0).None?
    ensures RemoveUnits(s) == s
    decreases |s|
  {
    if s != [] {
      var t := s[1..];
      assert MatchEnd(s, 0).None?;
      FindGroupTail(s);
      RemoveUnitsNoMatch(t);
      assert s == [s[0]] + t;
    }
  }

  /**
   * The single pass agrees with the `preg_replace` reading: find the leftmost
   * match, keep what precedes it, and carry on right after it.
   */
  lemma {:induction false} RemoveUnitsLeftmost(s: string)
    requires FindGroup(s, 0).Some?
    ensures var g := FindGroup(s, 0).value;
      RemoveUnits(s) == s[..g.0] + RemoveUnits(s[g.1 + 1..])
    decreases |s|
  {
    if MatchEnd(s, 0).None? {
      var t := s[1..];
      FindGroupTail(s);
      var g := FindGroup(t, 0).value;
      assert FindGroup(s, 0).value == (g.0 + 1, g.1 + 1);
      calc {
        RemoveUnits(s);
        [s[0]] + RemoveUnits(t);
        { RemoveUnitsLeftmost(t); }
        [s[0]] + (t[..g.0] + RemoveUnits(t[g.1 + 1..]));
        { assert s[..g.0 + 1] == [s[0]] + t[..g.0]; assert s[g.1 + 2..] == t[g.1 + 1..]; }
        s[..g.0 + 1] + RemoveUnits(s[g.1 + 2..]);
      }
    }
  }

  // ---------------------------------------------------------------------
  // Exactly the matches of the original string are deleted.
  // ---------------------------------------------------------------------

  /** Position `j` lies inside some match of the original string. */
  ghost predicate Covered(s: string, j: int)
  {
    exists i, k :: GroupAt(s, i, k) && i <= j <= k
  }

  /** The characters of `s` from `p` on that lie inside no match, in order. */
  ghost function Uncovered(s: string, p: nat): string
    requires p <= |s|
    decreases |s| - p
  {
    if p == |s| then [] else (if Covered(s, p) then [] else [s[p]]) + Uncovered(s, p + 1)
  }

  /** No match straddles position `p`. */
  ghost predicate Boundary(s: string, p: int)
  {
    forall i, k :: GroupAt(s, i, k) && i < p ==> k < p
  }

  lemma {:induction false} SkipCovered(s: string, p: nat, q: nat)
    requires p <= q <= |s|
    requires forall j :: p <= j < q ==> Covered(s, j)
    ensures Uncovered(s, p) == Uncovered(s, q)
    decreases q - p
  {
    if p < q {
      SkipCovered(s, p + 1, q);
    }
  }

  /** A match starting at a boundary `p` is covered whole, and a boundary follows it. */
  lemma SkipGroup(s: string, p: nat, k: nat)
    requires GroupAt(s, p, k) && Boundary(s, p)
    ensures Uncovered(s, p) == Uncovered(s, k + 1)
    ensures Boundary(s, k + 1)
  {
    forall j | p <= j < k + 1 ensures Covered(s, j) {
      assert GroupAt(s, p, k);
    }
    SkipCovered(s, p, k + 1);
    forall i, k2 | GroupAt(s, i, k2) && i < k + 1 ensures k2 < k + 1 {
      GroupsDisjoint(s, p, k, i, k2);
    }
  }

  /** A boundary `p` where no match starts is uncovered, and `p + 1` is a boundary. */
  lemma KeepChar(s: string, p: nat)
    requires p < |s| && Boundary(s, p) && MatchEnd(s, p).None?
    ensures Uncovered(s, p) == [s[p]] + Uncovered(s, p + 1)
    ensures Boundary(s, p + 1)
  {
    assert !Covered(s, p);
  }

  lemma {:induction false} RemoveUnitsFrom(s: string, p: nat)
    requires p <= |s| && Boundary(s, p)
    ensures RemoveUnits(s[p..]) == Uncovered(s, p)
    decreases |s| - p
  {
    if p < |s| {
      var t := s[p..];
      match MatchEnd(t, 0)
      case Some(k') =>
        GroupShift(s, p, 0, k');
        SkipGroup(s, p, p + k');
        assert t[k' + 1..] == s[p + k' + 1..];
        RemoveUnitsFrom(s, p + k' + 1);
      case None =>
        forall k: int ensures !GroupAt(s, p, k) {
          GroupShift(s, p, 0, k - p);
        }
        KeepChar(s, p);
        assert t[1..] == s[p + 1..];
        RemoveUnitsFrom(s, p + 1);
    }
  }

  /**
   * Every match of the original string is deleted, every character outside
   * them is kept, and the kept characters stay in order. In particular no
   * match of the original survives, although new ones may form from the
   * pieces left behind.
   */
  lemma RemoveUnitsKeepsUncovered(s: string)
    ensures RemoveUnits(s) == Uncovered(s, 0)
  {
    RemoveUnitsFrom(s, 0);
  }

  /** `[a[b]c]` loses only `[b]`; the `[ac]` it leaves behind is not removed again. */
  lemma RemoveUnitsIsSinglePass()
    ensures RemoveUnits("[a[b]c]") == "[ac]"
  {
    var s, t, u, v, w := "[a[b]c]", "a[b]c]", "[b]c]", "c]", "]";
    assert s[1..] == t && t[1..] == u && u[3..] == v && v[1..] == w && w[1..] == [];
    assert CloseFrom(s, 2) == None;
    assert CloseFrom(s, 1) == None;
    assert RemoveUnits(s) == [s[0]] + RemoveUnits(t);
    assert RemoveUnits(t) == [t[0]] + RemoveUnits(u);
    assert CloseFrom(u, 2) == Some(2);
    assert CloseFrom(u, 1) == Some(2);
    assert RemoveUnits(u) == RemoveUnits(v);
    assert RemoveUnits(v) == [v[0]] + RemoveUnits(w);
    assert RemoveUnits(w) == [w[0]] + RemoveUnits([]);
  }

  // ---------------------------------------------------------------------
  // A single trailing group
  // ---------------------------------------------------------------------

  /** Without an opening bracket the pattern matches nowhere, and the pass keeps everything. */
  lemma RemoveUnitsPlain(a: string)
    requires '[' !in a
    ensures FindGroup(a, 0).None? && RemoveUnits(a) == a
  {
    RemoveUnitsNoMatch(a);
  }

  /** A match with no opening bracket before it is the leftmost one. */
  lemma LeftmostGroup(s: string, i: nat, k: nat)
    requires GroupAt(s, i, k) && '[' !in s[..i]
    ensures FindGroup(s, 0) == Some((i, k))
  {
    assert forall j :: 0 <= j < i ==> s[j] == s[..i][j];
    var g := FindGroup(s, 0).value;
    GroupEndUnique(s, i, k, g.1);
  }

  /** Brackets around a bracket-free run form a match. */
  lemma GroupAround(s: string, i: nat, k: nat)
    requires i < k < |s| && s[i] == '[' && s[k] == ']'
    requires !('[' in s[i + 1..k] || ']' in s[i + 1..k])
    ensures GroupAt(s, i, k)
  {
    assert forall m :: i < m < k ==> s[m] == s[i + 1..k][m - i - 1];
  }

  /** When `[u]` closes the text and nothing before it opens a bracket, it is the leftmost match. */
  lemma TrailingGroupFound(a: string, u: string)
    requires '[' !in a && !('[' in u || ']' in u)
    ensures FindGroup(a + ['['] + u + [']'], 0) == Some((|a|, |a| + |u| + 1))
  {
    var s := a + ['['] + u + [']'];
    var i, k := |a|, |a| + |u| + 1;
    assert s[i + 1..k] == u && s[..i] == a;
    GroupAround(s, i, k);
    LeftmostGroup(s, i, k);
  }

  /** ... and the pass deletes exactly it. */
  lemma TrailingGroup(a: string, u: string)
    requires '[' !in a && !('[' in u || ']' in u)
    ensures RemoveUnits(a + ['['] + u + [']']) == a
  {
    var s := a + ['['] + u + [']'];
    TrailingGroupFound(a, u);
    RemoveUnitsLeftmost(s);
    assert s[..|a|] == a;
    assert s[|a| + |u| + 2..] == [];
  }
}

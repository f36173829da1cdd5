/**
 * `_merge_diffs` of backend/interactor/business_logic.py: the line-level
 * merge applied when a content update was made against an outdated base.
 * The two diffs are `difflib.Differ` outputs (lines starting with "+ ",
 * "- ", "  " or "? "), taken here as inputs. As in the source, the changes
 * are keyed by their position in the diff but looked up by the position of
 * the base line.
 */
module Merge {
  import opened Records

  /** What a diff says about one position: the line is deleted, or replaced by a new one. */
  datatype Change = Deleted | Replaced(line: string)

  const ConflictMarker: string := "<<<CONFLICT>>>\n"

  predicate IsAdded(line: string) {
    |line| >= 2 && line[0] == '+' && line[1] == ' '
  }

  predicate IsRemoved(line: string) {
    |line| >= 2 && line[0] == '-' && line[1] == ' '
  }

  /** The change one diff line records, if it records one. */
  function ChangeOf(line: string): Option<Change> {
    if IsAdded(line) then Some(Replaced(line[2..]))
    else if IsRemoved(line) then Some(Deleted)
    else None
  }

  /** The change map the first loops of `_merge_diffs` hold after `n` diff lines. */
  function ChangesUpTo(diff: seq<string>, n: nat): map<int, Change>
    requires n <= |diff|
  {
    map i | 0 <= i < n && ChangeOf(diff[i]).Some? :: ChangeOf(diff[i]).value
  }

  /** `changes1` / `changes2`: position in the diff to the change recorded there. */
  function Changes(diff: seq<string>): map<int, Change> {
    ChangesUpTo(diff, |diff|)
  }

  function Lookup(changes: map<int, Change>, i: int): Option<Change> {
    if i in changes then Some(changes[i]) else None
  }

  /** The lines emitted for one base line, given what each side did at that position. */
  function MergeLine(base: string, c1: Option<Change>, c2: Option<Change>): (r: seq<string>)
    ensures |r| <= 3
    ensures forall k | 0 <= k < |r| ::
      r[k] == base || r[k] == ConflictMarker || c1 == Some(Replaced(r[k])) || c2 == Some(Replaced(r[k]))
  {
    match (c1, c2)
    case (None, None) => [base]
    case (Some(Deleted), Some(Deleted)) => []
    case (Some(Deleted), Some(Replaced(b))) => [b]
    case (Some(Replaced(a)), Some(Deleted)) => [a]
    case (Some(Replaced(a)), Some(Replaced(b))) => [a, ConflictMarker, b]
    case (Some(Deleted), None) => []
    case (Some(Replaced(a)), None) => [a]
    case (None, Some(Deleted)) => []
    case (None, Some(Replaced(b))) => [b]
  }

  /** `merged_lines` after the first `n` base lines. */
  function MergedPrefix(base: seq<string>, ch1: map<int, Change>, ch2: map<int, Change>, n: nat): seq<string>
    requires n <= |base|
  {
    if n == 0 then []
    else MergedPrefix(base, ch1, ch2, n - 1) + MergeLine(base[n - 1], Lookup(ch1, n - 1), Lookup(ch2, n - 1))
  }

  /** `''.join(lines)`. */
  function Join(lines: seq<string>): string {
    if lines == [] then "" else Join(lines[..|lines| - 1]) + lines[|lines| - 1]
  }

  /** The first two loops of `_merge_diffs`: the changes one diff records, keyed by diff position. */
  method CollectChanges(diff: seq<string>) returns (changes: map<int, Change>)
    ensures changes == Changes(diff)
  {
    changes := map[];
    var i := 0;
    while i < |diff|
      invariant 0 <= i <= |diff|
      invariant changes == ChangesUpTo(diff, i)
    {
      var line := diff[i];
      if IsAdded(line) {
        changes := changes[i := Replaced(line[2..])];
      } else if IsRemoved(line) {
        changes := changes[i := Deleted];
      }
      i := i + 1;
    }
  }

  /** `_merge_diffs(base_lines, diff1, diff2)`. */
  method MergeDiffs(baseLines: seq<string>, diff1: seq<string>, diff2: seq<string>) returns (merged: string)
    ensures merged == Join(MergedPrefix(baseLines, Changes(diff1), Changes(diff2), |baseLines|))
  {
    var changes1 := CollectChanges(diff1);
    var changes2 := CollectChanges(diff2);
    var mergedLines: seq<string> := [];
    var i := 0;
    while i < |baseLines|
      invariant 0 <= i <= |baseLines|
      invariant mergedLines == MergedPrefix(baseLines, changes1, changes2, i)
    {
      var line := baseLines[i];
      if i in changes1 && i in changes2 {
        if changes1[i].Deleted? && changes2[i].Deleted? {
        } else if changes1[i].Deleted? {
          mergedLines := mergedLines + [changes2[i].line];
        } else if changes2[i].Deleted? {
          mergedLines := mergedLines + [changes1[i].line];
        } else {
          mergedLines := mergedLines + [changes1[i].line, ConflictMarker, changes2[i].line];
        }
      } else if i in changes1 {
        if changes1[i].Replaced? {
          mergedLines := mergedLines + [changes1[i].line];
        }
      } else if i in changes2 {
        if changes2[i].Replaced? {
          mergedLines := mergedLines + [changes2[i].line];
        }
      } else {
        mergedLines := mergedLines + [line];
      }
      i := i + 1;
    }
    merged := Join(mergedLines);
  }

  // ---------------------------------------------------------------------
  // Properties of the merge
  // ---------------------------------------------------------------------

  /** Each base line yields at most three lines, so the merge has at most three times as many lines as the base. */
  lemma {:induction false} MergedBound(base: seq<string>, ch1: map<int, Change>, ch2: map<int, Change>, n: nat)
    requires n <= |base|
    ensures |MergedPrefix(base, ch1, ch2, n)| <= 3 * n
  {
    if n > 0 {
      MergedBound(base, ch1, ch2, n - 1);
    }
  }

  /** Where neither side recorded a change, the merge reproduces the base lines. */
  lemma {:induction false} MergedUnchanged(base: seq<string>, ch1: map<int, Change>, ch2: map<int, Change>, n: nat)
    requires n <= |base|
    requires forall i | 0 <= i < n :: i !in ch1 && i !in ch2
    ensures MergedPrefix(base, ch1, ch2, n) == base[..n]
  {
    if n > 0 {
      MergedUnchanged(base, ch1, ch2, n - 1);
      assert base[..n] == base[..n - 1] + [base[n - 1]];
    }
  }

  /**
   * Diffs with no "+ " or "- " line at the positions of the base lines
   * leave the content as the joined base.
   */
  lemma MergeOfUnmarkedDiffs(base: seq<string>, diff1: seq<string>, diff2: seq<string>)
    requires forall i | 0 <= i < |base| && i < |diff1| :: !IsAdded(diff1[i]) && !IsRemoved(diff1[i])
    requires forall i | 0 <= i < |base| && i < |diff2| :: !IsAdded(diff2[i]) && !IsRemoved(diff2[i])
    ensures Join(MergedPrefix(base, Changes(diff1), Changes(diff2), |base|)) == Join(base)
  {
    UnmarkedHasNoChanges(diff1, |base|);
    UnmarkedHasNoChanges(diff2, |base|);
    MergedUnchanged(base, Changes(diff1), Changes(diff2), |base|);
    assert base[..|base|] == base;
  }

  /** A diff with no "+ " or "- " line among its first `n` lines records no change at those positions. */
  lemma UnmarkedHasNoChanges(diff: seq<string>, n: nat)
    requires forall i | 0 <= i < n && i < |diff| :: !IsAdded(diff[i]) && !IsRemoved(diff[i])
    ensures forall i | 0 <= i < n :: i !in Changes(diff)
  {
    forall i | 0 <= i < n
      ensures i !in Changes(diff)
    {
      if i < |diff| {
        assert ChangeOf(diff[i]).None?;
      }
    }
  }

  /** A reference definition: the base lines with one side's changes applied. */
  function ApplyChanges(base: seq<string>, ch: map<int, Change>, n: nat): seq<string>
    requires n <= |base|
  {
    if n == 0 then []
    else
      var i := n - 1;
      ApplyChanges(base, ch, i) + (if i !in ch then [base[i]] else if ch[i].Deleted? then [] else [ch[i].line])
  }

  /** When the second side changed nothing at the base positions, the merge is the first side's edit. */
  lemma {:induction false} MergedOneSided(base: seq<string>, ch1: map<int, Change>, ch2: map<int, Change>, n: nat)
    requires n <= |base|
    requires forall i | 0 <= i < n :: i !in ch2
    ensures MergedPrefix(base, ch1, ch2, n) == ApplyChanges(base, ch1, n)
  {
    if n > 0 {
      MergedOneSided(base, ch1, ch2, n - 1);
    }
  }

  /** The order of the two sides matters only where both replaced the same line (the conflict block's order). */
  lemma {:induction false} MergedSymmetric(base: seq<string>, ch1: map<int, Change>, ch2: map<int, Change>, n: nat)
    requires n <= |base|
    requires forall i | 0 <= i < n && i in ch1 && i in ch2 :: !(ch1[i].Replaced? && ch2[i].Replaced? && ch1[i].line != ch2[i].line)
    ensures MergedPrefix(base, ch1, ch2, n) == MergedPrefix(base, ch2, ch1, n)
  {
    if n > 0 {
      MergedSymmetric(base, ch1, ch2, n - 1);
      MergeLineSymmetric(base[n - 1], Lookup(ch1, n - 1), Lookup(ch2, n - 1));
    }
  }

  /** For one base line, the sides commute unless both replaced it with different text. */
  lemma MergeLineSymmetric(base: string, c1: Option<Change>, c2: Option<Change>)
    requires !(c1.Some? && c2.Some? && c1.value.Replaced? && c2.value.Replaced? && c1.value.line != c2.value.line)
    ensures MergeLine(base, c1, c2) == MergeLine(base, c2, c1)
  {
  }
}

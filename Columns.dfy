/**
 * Column labels: the renaming that makes every label safe as an SQL
 * identifier (hello.py line 16) and the detection of the PM2.5 column by
 * substring (hello.py line 23).
 */
module Columns {
  import opened Wrappers

  /** The substring that marks the PM2.5 column once labels are normalised. */
  const TARGET_MARKER := "PM2_5"

  /** `str.replace` for one character: every `target` in `s` becomes `replacement`. */
  function Replace(s: string, target: char, replacement: char): (r: string)
    ensures |r| == |s|
    ensures forall i :: 0 <= i < |s| ==> r[i] == if s[i] == target then replacement else s[i]
  {
    if s == [] then [] else [if s[0] == target then replacement else s[0]] + Replace(s[1..], target, replacement)
  }

  /** Blank or dot becomes underscore, one position at a time. */
  predicate IsSeparator(c: char)
  {
    c == ' ' || c == '.'
  }

  /**
   * `col.replace(" ", "_").replace(".", "_")`: the two passes together turn
   * every blank and every dot into an underscore and leave every other
   * character where it was, so no separator survives.
   */
  function NormalizeName(name: string): (r: string)
    ensures |r| == |name|
    ensures forall i :: 0 <= i < |name| ==> r[i] == if IsSeparator(name[i]) then '_' else name[i]
    ensures forall i :: 0 <= i < |r| ==> !IsSeparator(r[i])
  {
    Replace(Replace(name, ' ', '_'), '.', '_')
  }

  /** The list comprehension of hello.py line 16, one label at a time. */
  function NormalizeColumns(columns: seq<string>): (r: seq<string>)
    ensures |r| == |columns|
    ensures forall i :: 0 <= i < |columns| ==> r[i] == NormalizeName(columns[i])
  {
    seq(|columns|, i requires 0 <= i < |columns| => NormalizeName(columns[i]))
  }

  /** After renaming, no label holds a blank or a dot; labels keep their number, order and length. */
  lemma NormalizedColumnsClean(columns: seq<string>)
    ensures |NormalizeColumns(columns)| == |columns|
    ensures forall i :: 0 <= i < |columns| ==>
      |NormalizeColumns(columns)[i]| == |columns[i]| && ' ' !in NormalizeColumns(columns)[i] && '.' !in NormalizeColumns(columns)[i]
  {
    forall i | 0 <= i < |columns|
      ensures ' ' !in NormalizeColumns(columns)[i] && '.' !in NormalizeColumns(columns)[i]
    {
      var r := NormalizeColumns(columns)[i];
      assert forall j :: 0 <= j < |r| ==> !IsSeparator(r[j]);
    }
  }

  /** Renaming a label that was already renamed changes nothing. */
  lemma NormalizeNameIdempotent(name: string)
    ensures NormalizeName(NormalizeName(name)) == NormalizeName(name)
  {
    var once := NormalizeName(name);
    var twice := NormalizeName(once);
    assert forall i :: 0 <= i < |once| ==> twice[i] == once[i];
  }

  /** Renaming the already renamed columns changes nothing. */
  lemma NormalizeColumnsIdempotent(columns: seq<string>)
    ensures NormalizeColumns(NormalizeColumns(columns)) == NormalizeColumns(columns)
  {
    var once := NormalizeColumns(columns);
    forall i | 0 <= i < |columns|
      ensures NormalizeColumns(once)[i] == once[i]
    {
      NormalizeNameIdempotent(columns[i]);
    }
  }

  /** `sub` occurs in `s` starting at position `i`. */
  predicate OccursAt(s: string, sub: string, i: int)
  {
    0 <= i && i + |sub| <= |s| && s[i..i + |sub|] == sub
  }

  /** Python's `sub in s` for strings: `sub` occurs at some position of `s`. */
  function HasSubstring(s: string, sub: string): (r: bool)
    ensures r <==> exists i :: OccursAt(s, sub, i)
    decreases |s|
  {
    if |s| < |sub| then false
    else if s[..|sub|] == sub then
      assert OccursAt(s, sub, 0);
      true
    else
      var tail := HasSubstring(s[1..], sub);
      assert tail ==> exists i :: OccursAt(s, sub, i) by {
        if tail {
          var j :| OccursAt(s[1..], sub, j);
          assert s[1..][j..j + |sub|] == s[j + 1..j + 1 + |sub|];
          assert OccursAt(s, sub, j + 1);
        }
      }
      assert (exists i :: OccursAt(s, sub, i)) ==> tail by {
        if exists i :: OccursAt(s, sub, i) {
          var i :| OccursAt(s, sub, i);
          assert i != 0;
          assert s[1..][i - 1..i - 1 + |sub|] == s[i..i + |sub|];
          assert OccursAt(s[1..], sub, i - 1);
        }
      }
      tail
  }

  /** Column `k` is the first, in column order, whose label contains the marker. */
  predicate IsFirstTarget(columns: seq<string>, k: int)
  {
    0 <= k < |columns| && HasSubstring(columns[k], TARGET_MARKER)
    && forall j :: 0 <= j < k ==> !HasSubstring(columns[j], TARGET_MARKER)
  }

  /**
   * `next((col for col in columns if "PM2_5" in col), None)`: the first label,
   * in column order, that contains the marker; None exactly when none does.
   */
  function DetectTarget(columns: seq<string>): (r: Option<string>)
    ensures r.None? <==> forall i :: 0 <= i < |columns| ==> !HasSubstring(columns[i], TARGET_MARKER)
    ensures r.Some? ==> exists k :: IsFirstTarget(columns, k) && columns[k] == r.value
  {
    if columns == [] then None
    else if HasSubstring(columns[0], TARGET_MARKER) then
      assert IsFirstTarget(columns, 0);
      Some(columns[0])
    else
      var r := DetectTarget(columns[1..]);
      assert r.Some? ==> exists k :: IsFirstTarget(columns, k) && columns[k] == r.value by {
        if r.Some? {
          var k :| IsFirstTarget(columns[1..], k) && columns[1..][k] == r.value;
          forall j | 0 <= j < k + 1 ensures !HasSubstring(columns[j], TARGET_MARKER) {
            if j > 0 { assert columns[j] == columns[1..][j - 1]; }
          }
          assert IsFirstTarget(columns, k + 1);
        }
      }
      assert r.None? ==> forall i :: 0 <= i < |columns| ==> !HasSubstring(columns[i], TARGET_MARKER) by {
        if r.None? {
          forall i | 0 <= i < |columns| ensures !HasSubstring(columns[i], TARGET_MARKER) {
            if i > 0 { assert columns[i] == columns[1..][i - 1]; }
          }
        }
      }
      r
  }

  /** The name `pm_col` found is never empty, so the truthiness test `and pm_col` is the test for a match. */
  lemma DetectedTargetNonEmpty(columns: seq<string>)
    requires DetectTarget(columns).Some?
    ensures |DetectTarget(columns).value| >= |TARGET_MARKER| > 0
  {
  }

  /** Renaming maps an occurrence of `w` in `s` to an occurrence of the renamed `w` at the same place. */
  lemma NormalizeKeepsOccurrence(s: string, w: string)
    requires HasSubstring(s, w)
    ensures HasSubstring(NormalizeName(s), NormalizeName(w))
  {
    var p :| OccursAt(s, w, p);
    var ns, nw := NormalizeName(s), NormalizeName(w);
    assert forall j :: 0 <= j < |w| ==> ns[p..p + |w|][j] == nw[j] by {
      forall j | 0 <= j < |w| ensures ns[p..p + |w|][j] == nw[j] {
        assert s[p + j] == w[j];
      }
    }
    assert ns[p..p + |nw|] == nw;
    assert OccursAt(ns, nw, p);
  }

  /**
   * Detection runs on the renamed labels, so a source column labelled with
   * `PM2.5` (or `PM2 5`) is found.
   */
  lemma DottedTargetFound(columns: seq<string>, i: nat, spelling: string)
    requires i < |columns|
    requires spelling == "PM2.5" || spelling == "PM2 5" || spelling == TARGET_MARKER
    requires HasSubstring(columns[i], spelling)
    ensures DetectTarget(NormalizeColumns(columns)).Some?
  {
    var n := NormalizeName(spelling);
    assert n == TARGET_MARKER by {
      assert forall j :: 0 <= j < 5 ==> n[j] == TARGET_MARKER[j];
    }
    NormalizeKeepsOccurrence(columns[i], spelling);
    assert HasSubstring(NormalizeColumns(columns)[i], TARGET_MARKER);
  }
}

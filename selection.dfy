/**
 * `normalizeSelection(input, max)` of clone-and-install.js: the operator types
 * 1-based catalogue numbers separated by `|`; the result is the list of 0-based
 * indices, bounds-checked, without repeats, in order of first appearance.
 */
module SelectionParser {
  import opened Text

  /** The pieces the loop looks at: `input.split('|').map(trim).filter(Boolean)`. */
  function Pieces(input: string): seq<string>
  {
    KeepNonEmpty(TrimAll(Split(input, '|')))
  }

  /** `map((s) => s.trim())`. */
  function TrimAll(ss: seq<string>): seq<string>
  {
    if |ss| == 0 then [] else [Trim(ss[0])] + TrimAll(ss[1..])
  }

  /** `filter(Boolean)` on strings: the non-empty ones, in order. */
  function KeepNonEmpty(ss: seq<string>): seq<string>
  {
    if |ss| == 0 then []
    else if |ss[0]| == 0 then KeepNonEmpty(ss[1..])
    else [ss[0]] + KeepNonEmpty(ss[1..])
  }

  /** What one piece contributes: nothing, or a 0-based catalogue index. */
  datatype Token = Dropped | Index(index: nat)

  /**
   * The 0-based index a piece denotes, if it passes `/^\d+$/` and its 1-based
   * value lies in `[1, max]`.
   */
  function TokenIndex(p: string, max: int): (r: Token)
    ensures r.Index? <==> IsDigits(p) && 1 <= DecimalValue(p) <= max
    ensures r.Index? ==> r.index < max && r.index + 1 == DecimalValue(p)
  {
    if !IsDigits(p) then Dropped
    else
      var idx := DecimalValue(p);
      if idx < 1 || idx > max then Dropped else Index(idx - 1)
  }

  /** The indices of the accepted pieces among the first `n`, in order, repeats included. */
  function Candidates(ps: seq<string>, n: nat, max: int): (c: seq<nat>)
    requires n <= |ps|
    ensures forall k :: 0 <= k < |c| ==> c[k] < max
  {
    if n == 0 then []
    else
      match TokenIndex(ps[n - 1], max)
      case Dropped => Candidates(ps, n - 1, max)
      case Index(i) => Candidates(ps, n - 1, max) + [i]
  }

  /** First occurrences only, in the order they appear. */
  function Dedup(s: seq<nat>): seq<nat>
  {
    if s == [] then []
    else
      var n := |s| - 1;
      var d := Dedup(s[..n]);
      if s[n] in d then d else d + [s[n]]
  }

  /** One more element is kept by `Dedup` exactly when it is new. */
  lemma DedupStep(s: seq<nat>, x: nat)
    ensures Dedup(s + [x]) == if x in Dedup(s) then Dedup(s) else Dedup(s) + [x]
  {
    assert (s + [x])[..|s|] == s;
  }

  /** A piece that is not a digit string, or is out of range, adds no candidate. */
  lemma CandidatesDropped(ps: seq<string>, i: nat, max: int)
    requires i < |ps|
    requires !IsDigits(ps[i]) || DecimalValue(ps[i]) < 1 || DecimalValue(ps[i]) > max
    ensures Candidates(ps, i + 1, max) == Candidates(ps, i, max)
  {
    assert TokenIndex(ps[i], max) == Dropped;
  }

  /** An accepted piece appends its 0-based index to the candidates. */
  lemma CandidatesAccepted(ps: seq<string>, i: nat, max: int)
    requires i < |ps| && IsDigits(ps[i]) && 1 <= DecimalValue(ps[i]) <= max
    ensures Candidates(ps, i + 1, max) == Candidates(ps, i, max) + [DecimalValue(ps[i]) - 1]
  {
    assert TokenIndex(ps[i], max) == Index(DecimalValue(ps[i]) - 1);
  }

  /** The selection made from a list of pieces. */
  function SelectFrom(ps: seq<string>, max: int): seq<nat>
  {
    Dedup(Candidates(ps, |ps|, max))
  }

  /** The selection `normalizeSelection(input, max)` returns. */
  function Selection(input: string, max: int): seq<nat>
  {
    SelectFrom(Pieces(input), max)
  }

  /** The position of the first `x` in `s`. */
  function FirstIndex(s: seq<nat>, x: nat): (k: nat)
    requires x in s
    ensures k < |s| && s[k] == x
    ensures forall j :: 0 <= j < k ==> s[j] != x
  {
    if s[0] == x then 0 else 1 + FirstIndex(s[1..], x)
  }

  predicate NoDuplicates(s: seq<nat>) {
    forall i, j :: 0 <= i < j < |s| ==> s[i] != s[j]
  }

  /** `Dedup` keeps exactly the elements of its input. */
  lemma {:induction false} DedupMembers(s: seq<nat>)
    ensures forall x :: x in Dedup(s) <==> x in s
  {
    if s != [] {
      var n := |s| - 1;
      DedupMembers(s[..n]);
      assert s == s[..n] + [s[n]];
    }
  }

  /** `Dedup` never returns an element twice. */
  lemma {:induction false} DedupDistinct(s: seq<nat>)
    ensures NoDuplicates(Dedup(s))
  {
    if s != [] {
      DedupDistinct(s[..|s| - 1]);
    }
  }

  /** Appending to the input changes no first position of an element already present. */
  lemma FirstIndexAppend(s: seq<nat>, x: nat, y: nat)
    requires y in s
    ensures FirstIndex(s + [x], y) == FirstIndex(s, y)
  {
    var k := FirstIndex(s, y);
    var k' := FirstIndex(s + [x], y);
    assert (s + [x])[k] == y;
    assert s[k'] == y;
  }

  /**
   * `Dedup` lists elements in the order of their first occurrence in its input:
   * of two results, the earlier one occurs first in `s` earlier.
   */
  lemma {:induction false} DedupFirstOccurrenceOrder(s: seq<nat>)
    ensures forall x :: x in Dedup(s) ==> x in s
    ensures forall i, j :: 0 <= i < j < |Dedup(s)| ==>
              FirstIndex(s, Dedup(s)[i]) < FirstIndex(s, Dedup(s)[j])
  {
    DedupMembers(s);
    if s != [] {
      var n := |s| - 1;
      var p := s[..n];
      var d := Dedup(p);
      assert s == p + [s[n]];
      DedupFirstOccurrenceOrder(p);
      DedupMembers(p);
      forall i, j | 0 <= i < j < |Dedup(s)|
        ensures FirstIndex(s, Dedup(s)[i]) < FirstIndex(s, Dedup(s)[j])
      {
        FirstIndexAppend(p, s[n], d[i]);
        if j < |d| {
          FirstIndexAppend(p, s[n], d[j]);
        } else {
          assert s[n] !in p;
          assert FirstIndex(s, s[n]) == n;
        }
      }
    }
  }

  /** A number is a candidate exactly when one of the first `n` pieces denotes it. */
  lemma {:induction false} CandidatesMembers(ps: seq<string>, n: nat, max: int, x: nat)
    requires n <= |ps|
    ensures x in Candidates(ps, n, max) <==>
            exists k :: 0 <= k < n && TokenIndex(ps[k], max) == Index(x)
  {
    if n > 0 {
      CandidatesMembers(ps, n - 1, max, x);
    }
  }

  /** Every returned index lies in `[0, max)`. */
  lemma SelectFromInRange(ps: seq<string>, max: int)
    ensures forall k :: 0 <= k < |SelectFrom(ps, max)| ==> SelectFrom(ps, max)[k] < max
  {
    var c := Candidates(ps, |ps|, max);
    var d := Dedup(c);
    DedupMembers(c);
    forall k | 0 <= k < |d| ensures d[k] < max {
      assert d[k] in c;
    }
  }

  /**
   * An index is selected exactly when some piece of the input is a digit string
   * whose value is that index plus one and at most `max`.
   */
  lemma SelectionMembers(input: string, max: int, x: nat)
    ensures x in Selection(input, max) <==>
            exists k :: 0 <= k < |Pieces(input)| && IsDigits(Pieces(input)[k])
                        && DecimalValue(Pieces(input)[k]) == x + 1 && x < max
  {
    var ps := Pieces(input);
    DedupMembers(Candidates(ps, |ps|, max));
    CandidatesMembers(ps, |ps|, max, x);
    if x in Selection(input, max) {
      var k :| 0 <= k < |ps| && TokenIndex(ps[k], max) == Index(x);
      assert IsDigits(ps[k]) && DecimalValue(ps[k]) == x + 1;
    }
    if exists k :: 0 <= k < |ps| && IsDigits(ps[k]) && DecimalValue(ps[k]) == x + 1 && x < max {
      var k :| 0 <= k < |ps| && IsDigits(ps[k]) && DecimalValue(ps[k]) == x + 1 && x < max;
      assert TokenIndex(ps[k], max) == Index(x);
    }
  }

  /** The selection never holds an index twice, and lists indices by first appearance. */
  lemma SelectionDistinctAndOrdered(input: string, max: int)
    ensures NoDuplicates(Selection(input, max))
    ensures var c := Candidates(Pieces(input), |Pieces(input)|, max);
            var r := Selection(input, max);
            forall i, j :: 0 <= i < j < |r| ==>
              r[i] in c && r[j] in c && FirstIndex(c, r[i]) < FirstIndex(c, r[j])
  {
    var ps := Pieces(input);
    DedupDistinct(Candidates(ps, |ps|, max));
    DedupFirstOccurrenceOrder(Candidates(ps, |ps|, max));
  }

  /** `TrimAll` trims each string in place. */
  lemma {:induction false} TrimAllAt(ss: seq<string>)
    ensures |TrimAll(ss)| == |ss|
    ensures forall k :: 0 <= k < |ss| ==> TrimAll(ss)[k] == Trim(ss[k])
  {
    if |ss| > 0 {
      TrimAllAt(ss[1..]);
    }
  }

  /** `KeepNonEmpty` keeps exactly the non-empty strings. */
  lemma {:induction false} KeepNonEmptyMembers(ss: seq<string>)
    ensures forall s :: s in KeepNonEmpty(ss) <==> s in ss && s != []
  {
    if |ss| > 0 {
      KeepNonEmptyMembers(ss[1..]);
      assert ss == [ss[0]] + ss[1..];
    }
  }

  /** Strings that are all non-empty pass `filter(Boolean)` unchanged. */
  lemma {:induction false} KeepNonEmptyAll(ss: seq<string>)
    requires forall k :: 0 <= k < |ss| ==> ss[k] != []
    ensures KeepNonEmpty(ss) == ss
  {
    if |ss| > 0 {
      KeepNonEmptyAll(ss[1..]);
      assert ss == [ss[0]] + ss[1..];
    }
  }

  /** Trimming adds no character. */
  lemma TrimKeepsOut(s: string, c: char)
    requires c !in s
    ensures c !in Trim(s)
  {
    TrimIsSlice(s);
    var i := |s| - |TrimStart(s)|;
    var r := Trim(s);
    forall k | 0 <= k < |r| ensures r[k] != c {
      assert r[k] == s[i + k];
    }
  }

  /**
   * Every piece the loop sees is non-empty, holds no `|`, and neither starts
   * nor ends with whitespace.
   */
  lemma PiecesClean(input: string)
    ensures forall p :: p in Pieces(input) ==>
              p != [] && '|' !in p && !IsWhitespace(p[0]) && !IsWhitespace(p[|p| - 1])
  {
    var parts := Split(input, '|');
    var trimmed := TrimAll(parts);
    TrimAllAt(parts);
    KeepNonEmptyMembers(trimmed);
    forall p | p in Pieces(input)
      ensures p != [] && '|' !in p && !IsWhitespace(p[0]) && !IsWhitespace(p[|p| - 1])
    {
      var k :| 0 <= k < |trimmed| && trimmed[k] == p;
      TrimKeepsOut(parts[k], '|');
      TrimIsSlice(parts[k]);
    }
  }

  /** Trimming strings that are already trimmed changes nothing. */
  lemma {:induction false} TrimAllTrimmed(ss: seq<string>)
    requires forall k :: 0 <= k < |ss| ==> Trim(ss[k]) == ss[k]
    ensures TrimAll(ss) == ss
  {
    if |ss| > 0 {
      TrimAllTrimmed(ss[1..]);
      assert ss == [ss[0]] + ss[1..];
    }
  }

  /**
   * An input made by joining trimmed, `|`-free pieces yields exactly those
   * pieces, less the empty ones.
   */
  lemma PiecesOfJoin(parts: seq<string>)
    requires |parts| >= 1
    requires forall k :: 0 <= k < |parts| ==> '|' !in parts[k] && Trim(parts[k]) == parts[k]
    ensures Pieces(Join(parts, '|')) == KeepNonEmpty(parts)
  {
    SplitJoin(parts, '|');
    TrimAllTrimmed(parts);
  }

  /** The 1-based numbers of a list of 0-based indices: the loop's `seen` set. */
  function OneBased(r: seq<nat>): set<nat>
  {
    set k | k in r :: k + 1
  }

  lemma OneBasedStep(r: seq<nat>, x: nat)
    ensures x + 1 in OneBased(r) <==> x in r
    ensures OneBased(r + [x]) == OneBased(r) + {x + 1}
  {
    assert forall k :: k in r + [x] <==> k in r || k == x;
  }

  /**
   * `normalizeSelection(input, max)`: the pieces of the input, then the loop
   * over them.
   */
  method NormalizeSelection(input: string, max: int) returns (result: seq<nat>)
    ensures result == Selection(input, max)
    ensures forall k :: 0 <= k < |result| ==> result[k] < max
    ensures NoDuplicates(result)
  {
    var parts := Pieces(input);
    result := SelectPieces(parts, max);
  }

  /**
   * The loop of `normalizeSelection`: a `seen` set of 1-based values and a
   * `result` list of 0-based indices, both grown one accepted piece at a time.
   */
  method SelectPieces(parts: seq<string>, max: int) returns (result: seq<nat>)
    ensures result == SelectFrom(parts, max)
    ensures forall k :: 0 <= k < |result| ==> result[k] < max
    ensures NoDuplicates(result)
  {
    var seen: set<nat> := {};
    result := [];
    for i := 0 to |parts|
      invariant result == Dedup(Candidates(parts, i, max))
      invariant seen == OneBased(result)
    {
      seen, result := TakePiece(parts, i, max, seen, result);
    }
    SelectFromInRange(parts, max);
    DedupDistinct(Candidates(parts, |parts|, max));
  }

  /**
   * One iteration of the loop of `normalizeSelection`: skip a piece that is
   * not a digit string or is out of range, and record a new index once.
   */
  method TakePiece(parts: seq<string>, i: nat, max: int, seen: set<nat>, result: seq<nat>)
    returns (seen': set<nat>, result': seq<nat>)
    requires i < |parts|
    requires result == Dedup(Candidates(parts, i, max)) && seen == OneBased(result)
    ensures result' == Dedup(Candidates(parts, i + 1, max)) && seen' == OneBased(result')
  {
    seen', result' := seen, result;
    var p := parts[i];
    if !IsDigits(p) {
      CandidatesDropped(parts, i, max);
      return;
    }
    var idx := DecimalValue(p);
    if idx < 1 || idx > max {
      CandidatesDropped(parts, i, max);
      return;
    }
    CandidatesAccepted(parts, i, max);
    DedupStep(Candidates(parts, i, max), idx - 1);
    OneBasedStep(result, idx - 1);
    if idx !in seen {
      seen' := seen + {idx};
      result' := result + [idx - 1];
    }
  }
}

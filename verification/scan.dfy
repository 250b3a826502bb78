/**
 The scanning discipline shared by Python's `re.findall` and `re.sub` for a
 pattern that never matches the empty string: try the pattern at each
 position from left to right; on a match, record it and resume at its end;
 otherwise move one position on.  The matcher itself is a parameter, so the
 citation extractor and the marker stripper use the same scan.
 */
module Scan {
  import opened Common

  /** One match: the half-open span `[start, end)` and what was captured. */
  datatype Hit<M> = Hit(start: nat, end: nat, info: M)

  /** A matcher on a text of length `n`: every match found at `p` starts at
      `p`, is non-empty and stays inside the text. */
  ghost predicate Sound<M>(matchAt: nat -> Option<Hit<M>>, n: nat) {
    forall p: nat :: p < n && matchAt(p).Some? ==>
      matchAt(p).value.start == p && p < matchAt(p).value.end <= n
  }

  /** The matches `re.findall` reports from position `from` on. */
  function FindAll<M>(matchAt: nat -> Option<Hit<M>>, n: nat, from: nat): seq<Hit<M>>
    requires Sound(matchAt, n) && from <= n
    decreases n - from
  {
    if from == n then []
    else match matchAt(from)
      case Some(h) => [h] + FindAll(matchAt, n, h.end)
      case None => FindAll(matchAt, n, from + 1)
  }

  /** Position `p` lies inside one of the hits. */
  ghost predicate Covered<M>(hs: seq<Hit<M>>, p: nat) {
    exists i :: 0 <= i < |hs| && hs[i].start <= p < hs[i].end
  }

  /** Every hit is what the matcher finds at its start, from `from` on. */
  ghost predicate HitsMatch<M>(matchAt: nat -> Option<Hit<M>>, n: nat, from: nat, hs: seq<Hit<M>>) {
    forall i :: 0 <= i < |hs| ==> from <= hs[i].start < n && matchAt(hs[i].start) == Some(hs[i])
  }

  /** The hits are in text order and do not overlap. */
  ghost predicate InOrder<M>(hs: seq<Hit<M>>) {
    forall i, j :: 0 <= i < j < |hs| ==> hs[i].end <= hs[j].start
  }

  /** Every position from `from` on where the matcher succeeds lies inside a
      hit: the matcher finds nothing in the gaps between hits. */
  ghost predicate GapsEmpty<M>(matchAt: nat -> Option<Hit<M>>, n: nat, from: nat, hs: seq<Hit<M>>) {
    forall p: nat :: from <= p < n && matchAt(p).Some? ==> Covered(hs, p)
  }

  /** The declarative meaning of a left-to-right scan from `from`: every hit
      is what the matcher finds at its start, the hits are in order and do
      not overlap, and the matcher finds nothing at any position from `from`
      on that no hit covers. */
  ghost predicate Leftmost<M>(matchAt: nat -> Option<Hit<M>>, n: nat, from: nat, hs: seq<Hit<M>>) {
    HitsMatch(matchAt, n, from, hs) && InOrder(hs) && GapsEmpty(matchAt, n, from, hs)
  }

  /** A match at `from` followed by a leftmost scan from its end is a
      leftmost scan from `from`. */
  lemma LeftmostCons<M>(matchAt: nat -> Option<Hit<M>>, n: nat, from: nat, h: Hit<M>, rest: seq<Hit<M>>)
    requires Sound(matchAt, n) && from < n && matchAt(from) == Some(h)
    requires Leftmost(matchAt, n, h.end, rest)
    ensures Leftmost(matchAt, n, from, [h] + rest)
  {
    ConsMatch(matchAt, n, from, h, rest);
    ConsInOrder(h, rest);
    ConsGaps(matchAt, n, from, h, rest);
  }

  lemma ConsMatch<M>(matchAt: nat -> Option<Hit<M>>, n: nat, from: nat, h: Hit<M>, rest: seq<Hit<M>>)
    requires Sound(matchAt, n) && from < n && matchAt(from) == Some(h)
    requires HitsMatch(matchAt, n, h.end, rest)
    ensures HitsMatch(matchAt, n, from, [h] + rest)
  {
    var hs := [h] + rest;
    forall i | 0 <= i < |hs|
      ensures from <= hs[i].start < n && matchAt(hs[i].start) == Some(hs[i])
    {
      if i > 0 { assert hs[i] == rest[i - 1]; }
    }
  }

  lemma ConsInOrder<M>(h: Hit<M>, rest: seq<Hit<M>>)
    requires InOrder(rest)
    requires forall i :: 0 <= i < |rest| ==> h.end <= rest[i].start
    ensures InOrder([h] + rest)
  {
    var hs := [h] + rest;
    forall i, j | 0 <= i < j < |hs| ensures hs[i].end <= hs[j].start {
      assert hs[j] == rest[j - 1];
      if i > 0 { assert hs[i] == rest[i - 1]; }
    }
  }

  lemma ConsGaps<M>(matchAt: nat -> Option<Hit<M>>, n: nat, from: nat, h: Hit<M>, rest: seq<Hit<M>>)
    requires Sound(matchAt, n) && from < n && matchAt(from) == Some(h)
    requires GapsEmpty(matchAt, n, h.end, rest)
    ensures GapsEmpty(matchAt, n, from, [h] + rest)
  {
    var hs := [h] + rest;
    forall p: nat | from <= p < n && matchAt(p).Some?
      ensures Covered(hs, p)
    {
      if p < h.end {
        assert hs[0].start <= p < hs[0].end;
      } else {
        var i :| 0 <= i < |rest| && rest[i].start <= p < rest[i].end;
        assert hs[i + 1] == rest[i];
      }
    }
  }

  /** Skipping a position where nothing matches keeps a scan leftmost. */
  lemma LeftmostSkip<M>(matchAt: nat -> Option<Hit<M>>, n: nat, from: nat, hs: seq<Hit<M>>)
    requires from < n && matchAt(from).None?
    requires Leftmost(matchAt, n, from + 1, hs)
    ensures Leftmost(matchAt, n, from, hs)
  {
  }

  /** The scan produces the leftmost, non-overlapping matches. */
  lemma {:induction false} FindAllIsLeftmost<M>(matchAt: nat -> Option<Hit<M>>, n: nat, from: nat)
    requires Sound(matchAt, n) && from <= n
    ensures Leftmost(matchAt, n, from, FindAll(matchAt, n, from))
    decreases n - from
  {
    if from == n {
    } else if matchAt(from).Some? {
      var h := matchAt(from).value;
      FindAllIsLeftmost(matchAt, n, h.end);
      LeftmostCons(matchAt, n, from, h, FindAll(matchAt, n, h.end));
    } else {
      FindAllIsLeftmost(matchAt, n, from + 1);
      LeftmostSkip(matchAt, n, from, FindAll(matchAt, n, from + 1));
    }
  }

  /** A leftmost scan from a position where the matcher succeeds starts with
      that match, and continues with a leftmost scan from its end. */
  lemma LeftmostUncons<M>(matchAt: nat -> Option<Hit<M>>, n: nat, from: nat, hs: seq<Hit<M>>)
    requires Sound(matchAt, n) && from < n && matchAt(from).Some?
    requires Leftmost(matchAt, n, from, hs)
    ensures |hs| > 0 && hs[0] == matchAt(from).value
    ensures Leftmost(matchAt, n, hs[0].end, hs[1..])
  {
    var h := matchAt(from).value;
    assert Covered(hs, from);
    var i :| 0 <= i < |hs| && hs[i].start <= from < hs[i].end;
    assert hs[0] == h;
    var rest := hs[1..];
    forall k | 0 <= k < |rest|
      ensures h.end <= rest[k].start < n && matchAt(rest[k].start) == Some(rest[k])
    {
      assert rest[k] == hs[k + 1];
    }
    forall k, j | 0 <= k < j < |rest| ensures rest[k].end <= rest[j].start {
      assert rest[k] == hs[k + 1] && rest[j] == hs[j + 1];
    }
    forall p: nat | h.end <= p < n && matchAt(p).Some?
      ensures Covered(rest, p)
    {
      var k :| 0 <= k < |hs| && hs[k].start <= p < hs[k].end;
      assert rest[k - 1] == hs[k];
    }
  }

  /** Nothing else is a leftmost scan: the scan is determined by the matcher. */
  lemma {:induction false} LeftmostIsFindAll<M>(matchAt: nat -> Option<Hit<M>>, n: nat, from: nat, hs: seq<Hit<M>>)
    requires Sound(matchAt, n) && from <= n
    requires Leftmost(matchAt, n, from, hs)
    ensures hs == FindAll(matchAt, n, from)
    decreases n - from
  {
    if from == n {
    } else if matchAt(from).Some? {
      LeftmostUncons(matchAt, n, from, hs);
      var h := hs[0];
      assert FindAll(matchAt, n, from) == [h] + FindAll(matchAt, n, h.end);
      LeftmostIsFindAll(matchAt, n, h.end, hs[1..]);
      assert hs == [h] + hs[1..];
    } else {
      LeftmostUnskip(matchAt, n, from, hs);
      LeftmostIsFindAll(matchAt, n, from + 1, hs);
    }
  }

  /** A leftmost scan from a position where the matcher fails is a leftmost
      scan from the next position. */
  lemma LeftmostUnskip<M>(matchAt: nat -> Option<Hit<M>>, n: nat, from: nat, hs: seq<Hit<M>>)
    requires from < n && matchAt(from).None?
    requires Leftmost(matchAt, n, from, hs)
    ensures Leftmost(matchAt, n, from + 1, hs)
  {
    forall k | 0 <= k < |hs| ensures from + 1 <= hs[k].start {
      assert matchAt(hs[k].start) == Some(hs[k]);
    }
  }

  /** The scan passes over positions where the matcher fails and takes the
      first match after them. */
  lemma {:induction false} FindAllSkipTo<M>(matchAt: nat -> Option<Hit<M>>, n: nat, from: nat, p: nat)
    requires Sound(matchAt, n) && from <= p < n
    requires forall q: nat :: from <= q < p ==> matchAt(q).None?
    requires matchAt(p).Some?
    ensures FindAll(matchAt, n, from) == [matchAt(p).value] + FindAll(matchAt, n, matchAt(p).value.end)
    decreases p - from
  {
    if from < p {
      assert matchAt(from).None?;
      FindAllSkipTo(matchAt, n, from + 1, p);
    }
  }

  /** The scan finds nothing exactly when the matcher matches nowhere. */
  lemma FindAllEmptyIff<M>(matchAt: nat -> Option<Hit<M>>, n: nat, from: nat)
    requires Sound(matchAt, n) && from <= n
    ensures FindAll(matchAt, n, from) == [] <==> forall p: nat :: from <= p < n ==> matchAt(p).None?
  {
    var hs := FindAll(matchAt, n, from);
    FindAllIsLeftmost(matchAt, n, from);
    if hs == [] {
      assert forall p: nat :: from <= p < n ==> !Covered(hs, p);
    } else {
      assert matchAt(hs[0].start).Some?;
    }
  }

  /** Hits that may be cut out of a text of length `n` from `from` on. */
  ghost predicate Ordered<M>(hs: seq<Hit<M>>, n: nat, from: nat) {
    && (forall i :: 0 <= i < |hs| ==> from <= hs[i].start <= hs[i].end <= n)
    && (forall i, j :: 0 <= i < j < |hs| ==> hs[i].end <= hs[j].start)
  }

  /** `re.sub(pattern, "", s)`: the text outside the hits, in order. */
  function CutOut<M>(s: string, from: nat, hs: seq<Hit<M>>): (r: string)
    requires from <= |s| && Ordered(hs, |s|, from)
    ensures hs == [] ==> r == s[from..]
    ensures |r| <= |s| - from
    decreases |hs|
  {
    if hs == [] then s[from..]
    else
      assert Ordered(hs[1..], |s|, hs[0].end) by {
        forall i | 0 <= i < |hs| - 1 ensures hs[0].end <= hs[1..][i].start {
          assert hs[1..][i] == hs[i + 1];
        }
      }
      s[from..hs[0].start] + CutOut(s, hs[0].end, hs[1..])
  }

  /** The number of characters the hits span. */
  function Removed<M>(hs: seq<Hit<M>>): int
    decreases |hs|
  {
    if hs == [] then 0 else hs[0].end - hs[0].start + Removed(hs[1..])
  }

  /** Cutting out shortens the text from `from` on by exactly the number of
      characters the hits span. */
  lemma {:induction false} CutOutLength<M>(s: string, from: nat, hs: seq<Hit<M>>)
    requires from <= |s| && Ordered(hs, |s|, from)
    ensures |CutOut(s, from, hs)| + Removed(hs) == |s| - from
    decreases |hs|
  {
    if hs != [] {
      assert Ordered(hs[1..], |s|, hs[0].end) by {
        forall i | 0 <= i < |hs| - 1 ensures hs[0].end <= hs[1..][i].start {
          assert hs[1..][i] == hs[i + 1];
        }
      }
      CutOutLength(s, hs[0].end, hs[1..]);
    }
  }

  /** The reference for `CutOut`: the characters from `from` on that no hit
      covers, in order. */
  ghost function Uncovered<M>(s: string, from: nat, hs: seq<Hit<M>>): string
    requires from <= |s|
    decreases |s| - from
  {
    if from == |s| then ""
    else (if Covered(hs, from) then "" else [s[from]]) + Uncovered(s, from + 1, hs)
  }

  /** Cutting out the hits keeps exactly the characters no hit covers, in
      their order, and nothing else. */
  lemma {:induction false} CutOutKeepsUncovered<M>(s: string, from: nat, hs: seq<Hit<M>>)
    requires from <= |s| && Ordered(hs, |s|, from)
    ensures CutOut(s, from, hs) == Uncovered(s, from, hs)
    decreases |hs|
  {
    if hs == [] {
      UncoveredGap(s, from, |s|, hs);
      assert s[from..] == s[from..|s|] + "";
    } else {
      var a, b := hs[0].start, hs[0].end;
      forall r | from <= r < a ensures !Covered(hs, r) {
        forall i | 0 <= i < |hs| ensures !(hs[i].start <= r < hs[i].end) {
          if i > 0 { assert hs[0].end <= hs[i].start; }
        }
      }
      UncoveredGap(s, from, a, hs);
      forall r | a <= r < b ensures Covered(hs, r) {
        assert hs[0].start <= r < hs[0].end;
      }
      UncoveredSkip(s, a, b, hs);
      assert Ordered(hs[1..], |s|, b) by {
        forall i | 0 <= i < |hs| - 1 ensures b <= hs[1..][i].start {
          assert hs[1..][i] == hs[i + 1];
        }
      }
      UncoveredTail(s, b, hs);
      CutOutKeepsUncovered(s, b, hs[1..]);
    }
  }

  /** Positions no hit covers are kept one by one. */
  lemma {:induction false} UncoveredGap<M>(s: string, p: nat, q: nat, hs: seq<Hit<M>>)
    requires p <= q <= |s|
    requires forall r :: p <= r < q ==> !Covered(hs, r)
    ensures Uncovered(s, p, hs) == s[p..q] + Uncovered(s, q, hs)
    decreases q - p
  {
    if p < q {
      assert !Covered(hs, p);
      assert Uncovered(s, p, hs) == [s[p]] + Uncovered(s, p + 1, hs);
      UncoveredGap(s, p + 1, q, hs);
      assert s[p..q] == [s[p]] + s[p + 1..q];
    }
  }

  /** Positions a hit covers are dropped. */
  lemma {:induction false} UncoveredSkip<M>(s: string, p: nat, q: nat, hs: seq<Hit<M>>)
    requires p <= q <= |s|
    requires forall r :: p <= r < q ==> Covered(hs, r)
    ensures Uncovered(s, p, hs) == Uncovered(s, q, hs)
    decreases q - p
  {
    if p < q {
      UncoveredSkip(s, p + 1, q, hs);
    }
  }

  /** Past the end of the first hit, only the later hits can cover. */
  lemma {:induction false} UncoveredTail<M>(s: string, p: nat, hs: seq<Hit<M>>)
    requires hs != [] && hs[0].end <= p <= |s|
    ensures Uncovered(s, p, hs) == Uncovered(s, p, hs[1..])
    decreases |s| - p
  {
    if p < |s| {
      assert Covered(hs, p) <==> Covered(hs[1..], p) by {
        if Covered(hs, p) {
          var i :| 0 <= i < |hs| && hs[i].start <= p < hs[i].end;
          assert hs[1..][i - 1] == hs[i];
        }
        if Covered(hs[1..], p) {
          var i :| 0 <= i < |hs| - 1 && hs[1..][i].start <= p < hs[1..][i].end;
          assert hs[i + 1] == hs[1..][i];
        }
      }
      UncoveredTail(s, p + 1, hs);
    }
  }
}

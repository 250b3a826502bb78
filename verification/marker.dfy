/**
 The inline citation marker of src/app/generation/generator.py and how
 Python's `re` module matches it.

 The pattern is `\[Source:\s*(.+?),\s*Chunk\s*(\d+)\]`.  At a given start
 position the backtracking engine tries the first `\s*` longest-first and,
 for each of its lengths, the lazy name group `(.+?)` shortest-first (the
 group never crosses a line feed).  The rest, `,\s*Chunk\s*(\d+)\]`, can match
 in at most one way, because each `\s*` and the `\d+` must stop at a character
 outside their class (`TailUnique`).  So the match at a position is the
 candidate with the longest leading whitespace and, among those, the
 shortest name (`Chosen`).

 The stripping pattern `\s*\[Source:\s*.+?,\s*Chunk\s*\d+\]` differs only in
 the leading `\s*`, which must take the whole whitespace run because `[` is
 not whitespace.
 */
module Marker {
  import opened Common
  import opened Text
  import opened Scan

  const Open: string := "[Source:"
  const ChunkWord: string := "Chunk"

  /** `s[i..j]` is all whitespace. */
  predicate SpaceBetween(s: string, i: nat, j: nat) {
    i <= j <= |s| && forall k :: i <= k < j ==> IsSpace(s[k])
  }

  /** `s[i..j]` is all digits. */
  predicate DigitsBetween(s: string, i: nat, j: nat) {
    i <= j <= |s| && forall k :: i <= k < j ==> IsDigit(s[k])
  }

  /** Length of the maximal whitespace run at `i` (what a greedy `\s*` takes first). */
  function WsRun(s: string, i: nat): (r: nat)
    requires i <= |s|
    ensures i + r <= |s|
    decreases |s| - i
  {
    if i < |s| && IsSpace(s[i]) then 1 + WsRun(s, i + 1) else 0
  }

  /** Length of the maximal digit run at `i` (what a greedy `\d+` takes). */
  function DigitRun(s: string, i: nat): (r: nat)
    requires i <= |s|
    ensures i + r <= |s|
    decreases |s| - i
  {
    if i < |s| && IsDigit(s[i]) then 1 + DigitRun(s, i + 1) else 0
  }

  /** `WsRun` takes whitespace only, and stops at a non-space or the end. */
  lemma {:induction false} WsRunSpec(s: string, i: nat)
    requires i <= |s|
    ensures SpaceBetween(s, i, i + WsRun(s, i))
    ensures i + WsRun(s, i) == |s| || !IsSpace(s[i + WsRun(s, i)])
    decreases |s| - i
  {
    if i < |s| && IsSpace(s[i]) {
      WsRunSpec(s, i + 1);
    }
  }

  /** `DigitRun` takes digits only, and stops at a non-digit or the end. */
  lemma {:induction false} DigitRunSpec(s: string, i: nat)
    requires i <= |s|
    ensures DigitsBetween(s, i, i + DigitRun(s, i))
    ensures i + DigitRun(s, i) == |s| || !IsDigit(s[i + DigitRun(s, i)])
    decreases |s| - i
  {
    if i < |s| && IsDigit(s[i]) {
      DigitRunSpec(s, i + 1);
    }
  }

  // ---------------------------------------------------------------------------
  // The tail `,\s*Chunk\s*(\d+)\]`
  // ---------------------------------------------------------------------------

  /** The tail as a language: `,`, `w2` whitespace, `Chunk`, `w3` whitespace,
      `n >= 1` digits, `]`, starting at `q`. */
  ghost predicate TailShape(s: string, q: nat, w2: nat, w3: nat, n: nat) {
    var c := q + 1 + w2;
    var d := c + 5 + w3;
    && q < |s| && s[q] == ','
    && SpaceBetween(s, q + 1, c)
    && c + 5 <= |s| && WordAt(s, c, ChunkWord)
    && SpaceBetween(s, c + 5, d)
    && n >= 1 && DigitsBetween(s, d, d + n)
    && d + n < |s| && s[d + n] == ']'
  }

  /** `w` occurs at `i`, compared character by character. */
  predicate WordAt(s: string, i: nat, w: string)
    decreases |w|
  {
    |w| == 0 || (i < |s| && s[i] == w[0] && WordAt(s, i + 1, w[1..]))
  }

  /** `WordAt` is occurrence of the word as a slice. */
  lemma {:induction false} WordAtIff(s: string, i: nat, w: string)
    requires i <= |s|
    ensures WordAt(s, i, w) <==> i + |w| <= |s| && s[i..i + |w|] == w
    decreases |w|
  {
    if |w| > 0 && i < |s| {
      WordAtIff(s, i + 1, w[1..]);
      if i + |w| <= |s| {
        var a, b := s[i..i + |w|], s[i + 1..i + |w|];
        assert a == [s[i]] + b;
        assert w == [w[0]] + w[1..];
        if a == w {
          assert s[i] == w[0] && b == w[1..];
        }
      }
    }
  }

  /** The captured digits and the position just after the closing `]`. */
  datatype Tail = Tail(digits: string, end: nat)

  /** The tail match starting at `q`, if any. */
  function TailAt(s: string, q: nat): (r: Option<Tail>)
    requires q <= |s|
    ensures r.Some? ==> |r.value.digits| >= 1 && AllDigits(r.value.digits) && q < r.value.end <= |s|
  {
    if q < |s| && s[q] == ',' then
      var c := q + 1 + WsRun(s, q + 1);
      if WordAt(s, c, ChunkWord) then
        var d := c + 5 + WsRun(s, c + 5);
        var n := DigitRun(s, d);
        if n > 0 && d + n < |s| && s[d + n] == ']' then
          DigitRunSpec(s, d);
          Some(Tail(s[d..d + n], d + n + 1))
        else None
      else None
    else None
  }

  /** A whitespace run of length `w` ending at a non-space is the maximal run. */
  lemma {:induction false} WsRunExact(s: string, i: nat, w: nat)
    requires SpaceBetween(s, i, i + w) && (i + w == |s| || !IsSpace(s[i + w]))
    ensures WsRun(s, i) == w
    decreases w
  {
    if w > 0 {
      WsRunExact(s, i + 1, w - 1);
    }
  }

  /** Any whitespace run at `i` is within the maximal one. */
  lemma {:induction false} WsRunMaximal(s: string, i: nat, w: nat)
    requires SpaceBetween(s, i, i + w)
    ensures w <= WsRun(s, i)
    decreases w
  {
    if w > 0 {
      WsRunMaximal(s, i + 1, w - 1);
    }
  }

  lemma {:induction false} DigitRunExact(s: string, i: nat, n: nat)
    requires DigitsBetween(s, i, i + n) && (i + n == |s| || !IsDigit(s[i + n]))
    ensures DigitRun(s, i) == n
    decreases n
  {
    if n > 0 {
      DigitRunExact(s, i + 1, n - 1);
    }
  }

  /** What `TailAt` finds is in the tail language (and by `TailUnique` it is
      the decomposition found). */
  lemma TailAtSound(s: string, q: nat)
    requires q <= |s| && TailAt(s, q).Some?
    ensures exists w2: nat, w3: nat, n: nat :: TailShape(s, q, w2, w3, n)
  {
    assert q < |s| && s[q] == ',';
    var w2 := WsRun(s, q + 1);
    WsRunSpec(s, q + 1);
    var c := q + 1 + w2;
    assert WordAt(s, c, ChunkWord);
    var w3 := WsRun(s, c + 5);
    WsRunSpec(s, c + 5);
    var d := c + 5 + w3;
    var n := DigitRun(s, d);
    DigitRunSpec(s, d);
    assert n > 0 && d + n < |s| && s[d + n] == ']';
    assert TailShape(s, q, w2, w3, n);
  }

  /** The tail matches in at most one way: any decomposition of the tail
      language at `q` is the one `TailAt` finds. */
  lemma TailUnique(s: string, q: nat, w2: nat, w3: nat, n: nat)
    requires TailShape(s, q, w2, w3, n)
    ensures var d := q + 6 + w2 + w3;
      TailAt(s, q) == Some(Tail(s[d..d + n], d + n + 1))
  {
    var c := q + 1 + w2;
    assert s[c] == ChunkWord[0];
    WsRunExact(s, q + 1, w2);
    var d := c + 5 + w3;
    assert IsDigit(s[d]);
    WsRunExact(s, c + 5, w3);
    DigitRunExact(s, d, n);
  }

  // ---------------------------------------------------------------------------
  // Candidates and the engine's choice among them
  // ---------------------------------------------------------------------------

  /** The name group of `m >= 1` characters at `g` contains no line feed. */
  predicate GroupOk(s: string, g: nat, m: nat) {
    m >= 1 && g + m <= |s| && forall j :: g <= j < g + m ==> s[j] != '\n'
  }

  /** Where the tail matches in `s`.  The search for the name group and the
      leading whitespace below takes this as a parameter, so that reasoning
      about the search does not unfold the tail each time. */
  function HasTail(s: string): nat -> bool {
    (q: nat) => q <= |s| && TailAt(s, q).Some?
  }

  /** A name of `m` characters at `g` followed by a tail. */
  ghost predicate NameThen(s: string, tail: nat -> bool, g: nat, m: nat) {
    GroupOk(s, g, m) && tail(g + m)
  }

  /** After `[Source:` ending at `a`: `k` whitespace characters, then a name
      of `m` characters, then a tail. */
  ghost predicate CandidateFrom(s: string, tail: nat -> bool, a: nat, k: nat, m: nat) {
    SpaceBetween(s, a, a + k) && NameThen(s, tail, a + k, m)
  }

  predicate OpenAt(s: string, p: nat) {
    p + |Open| <= |s| && WordAt(s, p, Open)
  }

  /** One way the whole marker pattern matches at `p`. */
  ghost predicate Candidate(s: string, p: nat, k: nat, m: nat) {
    OpenAt(s, p) && CandidateFrom(s, HasTail(s), p + 8, k, m)
  }

  /** The candidate the backtracking engine reaches first: longest leading
      whitespace, then shortest name. */
  ghost predicate Chosen(s: string, p: nat, k: nat, m: nat) {
    && Candidate(s, p, k, m)
    && forall k': nat, m': nat :: Candidate(s, p, k', m') ==> k' < k || (k' == k && m <= m')
  }

  /** A line feed at `j` rules out every name that reaches it. */
  lemma NoGroupPastNewline(s: string, g: nat, m: nat)
    requires 1 <= m && g + m <= |s| && s[g + m - 1] == '\n'
    ensures forall m': nat :: m <= m' ==> !GroupOk(s, g, m')
  {
    forall m': nat | m <= m' ensures !GroupOk(s, g, m') {
      assert g <= g + m - 1 < g + m';
    }
  }

  /** The lazy group at `g`: the shortest length from `m` on that is
      followed by a tail, giving up at a line feed or the end of the text. */
  function Lazy(s: string, tail: nat -> bool, g: nat, m: nat): (r: Option<nat>)
    requires 1 <= m && g + m <= |s| + 1
    requires forall j :: g <= j < g + m - 1 ==> s[j] != '\n'
    ensures r.Some? ==> m <= r.value && NameThen(s, tail, g, r.value)
    ensures forall m': nat :: m <= m' && NameThen(s, tail, g, m') ==> r.Some? && r.value <= m'
    decreases |s| + 1 - (g + m)
  {
    if g + m > |s| then None
    else if s[g + m - 1] == '\n' then
      NoGroupPastNewline(s, g, m);
      None
    else if tail(g + m) then Some(m)
    else Lazy(s, tail, g, m + 1)
  }

  /** The greedy `\s*` at `a`: tries `k` leading whitespace characters, then
      fewer, each time with the lazy group. */
  function Greedy(s: string, tail: nat -> bool, a: nat, k: nat): (r: Option<(nat, nat)>)
    requires SpaceBetween(s, a, a + k)
    ensures r.Some? ==> r.value.0 <= k && CandidateFrom(s, tail, a, r.value.0, r.value.1)
    decreases k
  {
    match Lazy(s, tail, a + k, 1)
    case Some(m) => Some((k, m))
    case None => if k == 0 then None else Greedy(s, tail, a, k - 1)
  }

  /** `Greedy` misses no candidate within `k`, and prefers the one with the
      most leading whitespace and then the shortest name. */
  lemma {:induction false} GreedyFirst(s: string, tail: nat -> bool, a: nat, k: nat)
    requires SpaceBetween(s, a, a + k)
    ensures var r := Greedy(s, tail, a, k);
      forall k': nat, m': nat :: k' <= k && CandidateFrom(s, tail, a, k', m') ==>
        r.Some? && (k' < r.value.0 || (k' == r.value.0 && r.value.1 <= m'))
    decreases k
  {
    var r := Greedy(s, tail, a, k);
    forall k': nat, m': nat | k' <= k && CandidateFrom(s, tail, a, k', m')
      ensures r.Some? && (k' < r.value.0 || (k' == r.value.0 && r.value.1 <= m'))
    {
      if Lazy(s, tail, a + k, 1).Some? {
        GreedyFirstHere(s, tail, a, k);
      } else {
        GreedyFirstNotHere(s, tail, a, k);
        GreedyFirst(s, tail, a, k - 1);
      }
    }
  }

  /** When the lazy group succeeds after `k` whitespace characters, that
      candidate beats every other one within `k`. */
  lemma GreedyFirstHere(s: string, tail: nat -> bool, a: nat, k: nat)
    requires SpaceBetween(s, a, a + k) && Lazy(s, tail, a + k, 1).Some?
    ensures Greedy(s, tail, a, k) == Some((k, Lazy(s, tail, a + k, 1).value))
    ensures forall k': nat, m': nat :: k' <= k && CandidateFrom(s, tail, a, k', m') ==>
      k' < k || Lazy(s, tail, a + k, 1).value <= m'
  {
    forall k': nat, m': nat | k' == k && CandidateFrom(s, tail, a, k', m')
      ensures Lazy(s, tail, a + k, 1).value <= m'
    {
      assert NameThen(s, tail, a + k, m');
    }
  }

  /** When the lazy group fails after `k` whitespace characters, every
      candidate within `k` has fewer. */
  lemma GreedyFirstNotHere(s: string, tail: nat -> bool, a: nat, k: nat)
    requires SpaceBetween(s, a, a + k) && Lazy(s, tail, a + k, 1).None?
    ensures k > 0 ==> Greedy(s, tail, a, k) == Greedy(s, tail, a, k - 1)
    ensures forall k': nat, m': nat :: k' <= k && CandidateFrom(s, tail, a, k', m') ==> k' < k
  {
    forall k': nat, m': nat | k' <= k && CandidateFrom(s, tail, a, k', m') ensures k' < k {
      assert NameThen(s, tail, a + k', m');
    }
  }

  /** What a marker match captures: the raw name group and the digit group. */
  datatype Marker = Marker(name: string, digits: string)

  /** The match the candidate `(k, m)` at `p` denotes. */
  function HitOf(s: string, p: nat, k: nat, m: nat): (h: Hit<Marker>)
    requires Candidate(s, p, k, m)
    ensures h.start == p && p < h.end <= |s| && AllDigits(h.info.digits)
  {
    var g := p + 8 + k;
    var t := TailAt(s, g + m).value;
    Hit(p, t.end, Marker(s[g..g + m], t.digits))
  }

  /** The candidate the engine settles on at `p`, if any: after `[Source:`,
      the greedy whitespace starts from the whole run. */
  function Choice(s: string, p: nat): (r: Option<(nat, nat)>)
    ensures r.Some? ==> Candidate(s, p, r.value.0, r.value.1)
  {
    if OpenAt(s, p) then
      WsRunSpec(s, p + 8);
      Greedy(s, HasTail(s), p + 8, WsRun(s, p + 8))
    else None
  }

  /** The marker pattern tried at position `p`. */
  function MatchAt(s: string, p: nat): (r: Option<Hit<Marker>>)
    ensures r.Some? ==> r.value.start == p && p < r.value.end <= |s|
    ensures r.Some? ==> AllDigits(r.value.info.digits)
  {
    match Choice(s, p)
    case Some((k, m)) => Some(HitOf(s, p, k, m))
    case None => None
  }

  /** No match starts anywhere but at a `[`. */
  lemma NoBracketNoMatch(s: string, p: nat)
    requires p < |s| ==> s[p] != '['
    ensures MatchAt(s, p).None?
  {
  }

  /** Every candidate's leading whitespace is within the maximal run. */
  lemma CandidateWithinRun(s: string, a: nat, k: nat, m: nat)
    requires a <= |s| && CandidateFrom(s, HasTail(s), a, k, m)
    ensures k <= WsRun(s, a)
  {
    WsRunMaximal(s, a, k);
  }

  /** The engine settles on a candidate exactly when one exists, and the one
      it settles on is the chosen one. */
  lemma ChoiceSpec(s: string, p: nat)
    ensures Choice(s, p).Some? <==> exists k: nat, m: nat :: Candidate(s, p, k, m)
    ensures Choice(s, p).Some? ==> Chosen(s, p, Choice(s, p).value.0, Choice(s, p).value.1)
  {
    if OpenAt(s, p) {
      var a := p + 8;
      var w := WsRun(s, a);
      WsRunSpec(s, a);
      forall k': nat, m': nat | Candidate(s, p, k', m') ensures k' <= w {
        CandidateWithinRun(s, a, k', m');
      }
      GreedyFirst(s, HasTail(s), a, w);
    }
  }

  /** The chosen candidate is unique. */
  lemma ChosenUnique(s: string, p: nat, k: nat, m: nat, k': nat, m': nat)
    requires Chosen(s, p, k, m) && Chosen(s, p, k', m')
    ensures k == k' && m == m'
  {
    assert k' < k || (k' == k && m <= m');
    assert k < k' || (k == k' && m' <= m);
  }

  /** The engine matches at `p` exactly when some candidate exists, and then
      the match is the chosen candidate's. */
  lemma ChosenIsMatch(s: string, p: nat, k: nat, m: nat)
    requires Chosen(s, p, k, m)
    ensures Choice(s, p) == Some((k, m))
    ensures MatchAt(s, p) == Some(HitOf(s, p, k, m))
  {
    ChoiceSpec(s, p);
    var c := Choice(s, p).value;
    ChosenUnique(s, p, k, m, c.0, c.1);
  }

  // ---------------------------------------------------------------------------
  // re.findall and re.sub with this pattern
  // ---------------------------------------------------------------------------

  function Matcher(s: string): nat -> Option<Hit<Marker>> {
    (p: nat) => MatchAt(s, p)
  }

  lemma MatcherSound(s: string)
    ensures Sound(Matcher(s), |s|)
  {
  }

  /** `re.findall(pattern, s)`: the leftmost non-overlapping marker matches. */
  function FindMarkers(s: string): seq<Hit<Marker>> {
    MatcherSound(s);
    FindAll(Matcher(s), |s|, 0)
  }

  /** The markers found are the leftmost, non-overlapping matches, and the
      only such sequence. */
  lemma FindMarkersSpec(s: string)
    ensures Leftmost(Matcher(s), |s|, 0, FindMarkers(s))
    ensures forall hs :: Leftmost(Matcher(s), |s|, 0, hs) ==> hs == FindMarkers(s)
  {
    MatcherSound(s);
    FindAllIsLeftmost(Matcher(s), |s|, 0);
    forall hs | Leftmost(Matcher(s), |s|, 0, hs) ensures hs == FindMarkers(s) {
      LeftmostIsFindAll(Matcher(s), |s|, 0, hs);
    }
  }

  lemma NoMatchBefore(s: string, p: nat)
    requires forall i :: 0 <= i < p && i < |s| ==> s[i] != '['
    ensures forall i: nat :: i < p ==> Matcher(s)(i).None?
  {
    forall i: nat | i < p ensures Matcher(s)(i).None? {
      NoBracketNoMatch(s, i);
    }
  }

  /** With no `[` before `p`, the first marker found is the match at `p`,
      and the scan goes on from its end. */
  lemma FindMarkersFirst(s: string, p: nat, h: Hit<Marker>)
    requires forall i :: 0 <= i < p && i < |s| ==> s[i] != '['
    requires MatchAt(s, p) == Some(h)
    ensures Sound(Matcher(s), |s|) && h.end <= |s|
    ensures FindMarkers(s) == [h] + FindAll(Matcher(s), |s|, h.end)
  {
    MatcherSound(s);
    NoMatchBefore(s, p);
    FindAllSkipTo(Matcher(s), |s|, 0, p);
  }

  /** The stripping pattern at `p`: the whole whitespace run, then a marker. */
  function StripMatchAt(s: string, p: nat): (r: Option<Hit<()>>)
    ensures r.Some? ==> r.value.start == p && p < r.value.end <= |s|
  {
    if p <= |s| then
      match MatchAt(s, p + WsRun(s, p))
      case Some(h) => Some(Hit(p, h.end, ()))
      case None => None
    else None
  }

  /** The stripping pattern matches at `p` exactly when a marker follows
      the whole whitespace run at `p`; the span ends where the marker does. */
  lemma StripMatchSpec(s: string, p: nat)
    requires p <= |s|
    ensures var a := p + WsRun(s, p);
      && SpaceBetween(s, p, a)
      && (MatchAt(s, a).None? ==> StripMatchAt(s, p).None?)
      && (forall h :: MatchAt(s, a) == Some(h) ==> StripMatchAt(s, p) == Some(Hit(p, h.end, ())))
  {
    WsRunSpec(s, p);
  }

  function StripMatcher(s: string): nat -> Option<Hit<()>> {
    (p: nat) => StripMatchAt(s, p)
  }

  /** The spans `re.sub` removes: each is a whitespace run and a marker. */
  function StripSpans(s: string): (r: seq<Hit<()>>)
    ensures Leftmost(StripMatcher(s), |s|, 0, r)
    ensures Ordered(r, |s|, 0)
  {
    assert Sound(StripMatcher(s), |s|);
    FindAllIsLeftmost(StripMatcher(s), |s|, 0);
    FindAll(StripMatcher(s), |s|, 0)
  }

  /** `re.sub(r"\s*\[Source:\s*.+?,\s*Chunk\s*\d+\]", "", s)`. */
  function RemoveMarkers(s: string): string {
    CutOut(s, 0, StripSpans(s))
  }

  /** The substitution keeps exactly the characters that no removed span
      covers, in their order. */
  lemma RemoveMarkersKeeps(s: string)
    ensures RemoveMarkers(s) == Uncovered(s, 0, StripSpans(s))
  {
    CutOutKeepsUncovered(s, 0, StripSpans(s));
  }

  /** A text in which `re.findall` finds no marker is left as it is. */
  lemma NoMarkerNoRemoval(s: string)
    requires FindMarkers(s) == []
    ensures RemoveMarkers(s) == s
  {
    MatcherSound(s);
    FindMarkersSpec(s);
    FindAllEmptyIff(Matcher(s), |s|, 0);
    forall p: nat | p < |s| ensures StripMatcher(s)(p).None? {
      assert Matcher(s)(p + WsRun(s, p)).None?;
    }
    FindAllEmptyIff(StripMatcher(s), |s|, 0);
  }
}

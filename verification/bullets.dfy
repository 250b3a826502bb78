/**
 The bullet reader of scripts/run_sanity.py (lines 189-203), which reads the
 facts back out of a memory file: split the file into lines with
 `str.splitlines`, strip each line, and for a line starting with `"- "` take
 the rest, stripped.  Reading back a block that `append_facts` wrote gives
 the facts it wrote, stripped and in order.
 */
module BulletReader {
  import opened Common
  import opened Text
  import opened MemoryWriter

  /** The line boundaries of `str.splitlines`. */
  predicate IsLineBreak(c: char) {
    c == '\n' || c == '\r' || c == '\U{0b}' || c == '\U{0c}' || c == '\U{1c}' || c == '\U{1d}' || c == '\U{1e}'
    || c == '\U{85}' || c == '\U{2028}' || c == '\U{2029}'
  }

  predicate NoBreaks(s: string) {
    forall i :: 0 <= i < |s| ==> !IsLineBreak(s[i])
  }

  /** The position of the first line boundary at or after `i`, or `|s|`. */
  function FirstBreak(s: string, i: nat): (j: nat)
    requires i <= |s|
    ensures i <= j <= |s| && (j < |s| ==> IsLineBreak(s[j]))
    ensures forall k :: i <= k < j ==> !IsLineBreak(s[k])
    decreases |s| - i
  {
    if i == |s| || IsLineBreak(s[i]) then i else FirstBreak(s, i + 1)
  }

  /** `s.splitlines()`: `"\r\n"` is one boundary, and a boundary at the end
      does not start an empty last line. */
  function SplitLines(s: string): seq<string>
    decreases |s|
  {
    if |s| == 0 then []
    else
      var j := FirstBreak(s, 0);
      if j == |s| then [s]
      else
        var next := if s[j] == '\r' && j + 1 < |s| && s[j + 1] == '\n' then j + 2 else j + 1;
        [s[..j]] + SplitLines(s[next..])
  }

  /** A stripped line that starts with `"- "`. */
  predicate IsBullet(line: string) {
    var t := Strip(line);
    |t| >= 2 && t[..2] == "- "
  }

  /** The fact a line contributes: `line[2:].strip()` of the stripped line,
      for a bullet. */
  function ReadLine(line: string): (r: seq<string>)
    ensures |r| <= 1 && (|r| == 1 <==> IsBullet(line))
  {
    var t := Strip(line);
    if |t| >= 2 && t[..2] == "- " then [Strip(t[2..])] else []
  }

  function ReadLines(lines: seq<string>): seq<string>
    decreases |lines|
  {
    if |lines| == 0 then [] else ReadLine(lines[0]) + ReadLines(lines[1..])
  }

  /** The facts the reader finds in a memory file. */
  function ReadBullets(content: string): seq<string> {
    ReadLines(SplitLines(content))
  }

  /** Each fact stripped. */
  function StripAll(facts: seq<string>): (r: seq<string>)
    ensures |r| == |facts| && forall i :: 0 <= i < |r| ==> r[i] == Strip(facts[i])
  {
    seq(|facts|, i requires 0 <= i < |facts| => Strip(facts[i]))
  }

  // ---------------------------------------------------------------------------
  // Line-terminated text
  // ---------------------------------------------------------------------------

  /** Each line followed by `"\n"`. */
  function Terminated(lines: seq<string>): string
    decreases |lines|
  {
    if |lines| == 0 then [] else lines[0] + "\n" + Terminated(lines[1..])
  }

  /** Splitting line-terminated text gives back its lines, when none holds
      a boundary. */
  lemma {:induction false} SplitTerminated(lines: seq<string>)
    requires forall i :: 0 <= i < |lines| ==> NoBreaks(lines[i])
    ensures SplitLines(Terminated(lines)) == lines
    decreases |lines|
  {
    if |lines| > 0 {
      var l := lines[0];
      var rest := Terminated(lines[1..]);
      var s := Terminated(lines);
      assert s == l + "\n" + rest;
      assert s[|l|] == '\n';
      FirstBreakAt(s, l);
      assert s[..|l|] == l;
      assert s[|l| + 1..] == rest;
      SplitTerminated(lines[1..]);
    }
  }

  lemma FirstBreakAt(s: string, l: string)
    requires |l| < |s| && s[..|l|] == l && NoBreaks(l) && IsLineBreak(s[|l|])
    ensures FirstBreak(s, 0) == |l|
  {
    forall k | 0 <= k < |l| ensures !IsLineBreak(s[k]) {
      assert s[k] == l[k];
    }
  }

  /** `"\n".join(xs + [""])` ends each part with a line feed. */
  lemma {:induction false} JoinTerminated(xs: seq<string>)
    ensures Join("\n", xs + [""]) == Terminated(xs)
    decreases |xs|
  {
    if |xs| > 0 {
      JoinTerminated(xs[1..]);
      assert (xs + [""])[1..] == xs[1..] + [""];
    }
  }

  /** The block `append_facts` writes, as lines: two empty lines, the
      header, an empty line and the bullets. */
  lemma BlockLines(header: string, facts: seq<string>)
    ensures Block(header, facts) == Terminated(["", "", header, ""] + Bullets(facts))
  {
    var tail := [header, ""] + Bullets(facts);
    JoinTerminated(["\n"] + tail);
    assert ["\n", header, ""] + Bullets(facts) + [""] == (["\n"] + tail) + [""];
    assert (["\n"] + tail)[1..] == tail;
    assert (["", ""] + tail)[1..] == [""] + tail;
    assert ([""] + tail)[1..] == tail;
    assert ["", "", header, ""] + Bullets(facts) == ["", ""] + tail;
  }

  // ---------------------------------------------------------------------------
  // Reading back
  // ---------------------------------------------------------------------------

  /** A bullet for a non-blank fact reads back as the stripped fact. */
  lemma ReadBullet(f: string)
    requires Strip(f) != []
    ensures ReadLine("- " + f) == [Strip(f)]
  {
    StripEmptyIffAllSpace(f);
    RStripAppend("- ", f);
    LStripNoLeadingSpace("- " + RStrip(f));
    var t := Strip("- " + f);
    assert t == "- " + RStrip(f);
    assert t[..2] == "- " && t[2..] == RStrip(f);
    StripOfRStrip(f);
  }

  lemma {:induction false} ReadLinesAppend(a: seq<string>, b: seq<string>)
    ensures ReadLines(a + b) == ReadLines(a) + ReadLines(b)
    decreases |a|
  {
    if |a| > 0 {
      assert (a + b)[1..] == a[1..] + b;
      ReadLinesAppend(a[1..], b);
    } else {
      assert a + b == b;
    }
  }

  /** The bullet lines read back as the stripped facts. */
  lemma {:induction false} BulletsReadBack(facts: seq<string>)
    requires forall i :: 0 <= i < |facts| ==> Strip(facts[i]) != []
    ensures ReadLines(Bullets(facts)) == StripAll(facts)
    decreases |facts|
  {
    if |facts| > 0 {
      BulletsCons(facts);
      StripAllCons(facts);
      BulletsReadBack(facts[1..]);
      ReadBullet(facts[0]);
    }
  }

  lemma BulletsCons(facts: seq<string>)
    requires |facts| > 0
    ensures Bullets(facts) == ["- " + facts[0]] + Bullets(facts[1..])
  {
  }

  lemma StripAllCons(facts: seq<string>)
    requires |facts| > 0
    ensures StripAll(facts) == [Strip(facts[0])] + StripAll(facts[1..])
  {
  }

  /** Round trip: the reader finds in the block exactly the facts written,
      stripped and in order, when neither the header nor any fact holds a
      line boundary and the header is not itself a bullet. */
  lemma BlockReadBack(header: string, facts: seq<string>)
    requires NoBreaks(header) && !IsBullet(header)
    requires forall i :: 0 <= i < |facts| ==> NoBreaks(facts[i]) && Strip(facts[i]) != []
    ensures ReadBullets(Block(header, facts)) == StripAll(facts)
  {
    var bs := Bullets(facts);
    var front := ["", "", header, ""];
    BlockLines(header, facts);
    BulletsNoBreaks(facts);
    LinesNoBreaks(front, bs, header);
    SplitTerminated(front + bs);
    ReadLinesAppend(front, bs);
    FrontReadsNothing(header);
    BulletsReadBack(facts);
  }

  lemma BulletsNoBreaks(facts: seq<string>)
    requires forall i :: 0 <= i < |facts| ==> NoBreaks(facts[i])
    ensures forall i :: 0 <= i < |Bullets(facts)| ==> NoBreaks(Bullets(facts)[i])
  {
    var bs := Bullets(facts);
    forall i | 0 <= i < |bs| ensures NoBreaks(bs[i]) {
      assert forall k :: 2 <= k < |bs[i]| ==> bs[i][k] == facts[i][k - 2];
    }
  }

  lemma LinesNoBreaks(front: seq<string>, bs: seq<string>, header: string)
    requires front == ["", "", header, ""] && NoBreaks(header)
    requires forall i :: 0 <= i < |bs| ==> NoBreaks(bs[i])
    ensures forall i :: 0 <= i < |front + bs| ==> NoBreaks((front + bs)[i])
  {
    forall i | 0 <= i < |front + bs| ensures NoBreaks((front + bs)[i]) {
      if i >= 4 { assert (front + bs)[i] == bs[i - 4]; }
    }
  }

  lemma FrontReadsNothing(header: string)
    requires !IsBullet(header)
    ensures ReadLines(["", "", header, ""]) == []
  {
    EmptyNotBullet();
    FourNonBullets("", header, ["", "", header, ""]);
  }

  lemma FourNonBullets(e: string, h: string, front: seq<string>)
    requires !IsBullet(e) && !IsBullet(h) && front == [e, e, h, e]
    ensures ReadLines(front) == []
  {
    forall i | 0 <= i < |front| ensures !IsBullet(front[i]) {
      assert front[i] == e || front[i] == h;
    }
    NonBulletsReadNothing(front);
  }

  lemma EmptyNotBullet()
    ensures !IsBullet("")
  {
    assert Strip("") == "";
  }

  /** Lines none of which is a bullet contribute no facts. */
  lemma {:induction false} NonBulletsReadNothing(lines: seq<string>)
    requires forall i :: 0 <= i < |lines| ==> !IsBullet(lines[i])
    ensures ReadLines(lines) == []
    decreases |lines|
  {
    if |lines| > 0 {
      assert forall i :: 0 <= i < |lines| - 1 ==> lines[1..][i] == lines[i + 1];
      NonBulletsReadNothing(lines[1..]);
    }
  }

  /** A line starting with a character other than whitespace and `-` is
      not a bullet. */
  lemma HeadNotBullet(line: string)
    requires |line| > 0 && !IsSpace(line[0]) && line[0] != '-'
    ensures !IsBullet(line)
  {
    var t := RStrip(line);
    assert |t| > 0;
    LStripNoLeadingSpace(t);
    assert Strip(line)[0] == line[0];
  }

  /** The session header is not a bullet. */
  lemma SessionHeaderNotBullet(now: string)
    ensures !IsBullet(SessionHeader(now))
  {
    var h := SessionHeader(now);
    assert h[0] == '#';
    HeadNotBullet(h);
  }

  /** After `append_facts` writes, the appended text reads back as the facts
      it kept, stripped and in order. */
  lemma AppendReadBack(file: Option<string>, facts: seq<string>, header: string, now: string)
    requires forall i :: 0 <= i < |facts| ==> NoBreaks(facts[i])
    requires NoBreaks(EntryHeader(header, now)) && !IsBullet(EntryHeader(header, now))
    ensures var o := AppendFacts(file, facts, header, now);
      var existing := ReadMemory(file);
      o.written > 0 ==>
        ReadBullets(o.file.value[|file.GetOr("")|..]) == StripAll(NewFacts(facts, existing))
  {
    var o := AppendFacts(file, facts, header, now);
    var existing := ReadMemory(file);
    var stored := file.GetOr("");
    if o.written > 0 {
      var kept := NewFacts(facts, existing);
      NewFactsSpec(facts, existing);
      forall i | 0 <= i < |kept| ensures NoBreaks(kept[i]) && Strip(kept[i]) != [] {
        assert kept[i] in kept;
      }
      var block := Block(EntryHeader(header, now), kept);
      assert o.file.value == stored + block;
      assert o.file.value[|stored|..] == block;
      BlockReadBack(EntryHeader(header, now), kept);
    }
  }
}

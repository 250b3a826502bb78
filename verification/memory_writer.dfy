/**
 src/app/memory/memory_writer.py: the markdown memory files.  A file is an
 `Option<string>`: `None` when it does not exist, else its contents.  New
 facts are appended as a block of bullets under a header; a fact is skipped
 when it is blank or its trimmed, lower-cased form already occurs in the
 lower-cased file.  The clock is a parameter: `now` is the formatted
 timestamp of the default header.
 */
module MemoryWriter {
  import opened Common
  import opened Text
  import opened Seqs

  predicate NoCarriageReturn(s: string) {
    forall i :: 0 <= i < |s| ==> s[i] != '\r'
  }

  /** What a text-mode read returns for the stored characters `s`: Python's
      universal newlines turn each `"\r\n"` and each lone `"\r"` into
      `"\n"`. */
  function UniversalNewlines(s: string): (r: string)
    ensures |r| <= |s|
    decreases |s|
  {
    if |s| == 0 then ""
    else if s[0] == '\r' then "\n" + UniversalNewlines(if |s| > 1 && s[1] == '\n' then s[2..] else s[1..])
    else [s[0]] + UniversalNewlines(s[1..])
  }

  /** `read_memory`: a missing file reads as empty, an existing one as its
      contents with the line endings translated. */
  function ReadMemory(file: Option<string>): (r: string)
    ensures file.None? ==> r == ""
    ensures |r| <= |file.GetOr("")| && NoCarriageReturn(r)
    ensures NoCarriageReturn(file.GetOr("")) ==> r == file.GetOr("")
  {
    NewlinesNoCarriageReturn(file.GetOr(""));
    NewlinesPlainWhen(file.GetOr(""));
    UniversalNewlines(file.GetOr(""))
  }

  /** The text read back holds no carriage return. */
  lemma {:induction false} NewlinesNoCarriageReturn(s: string)
    ensures NoCarriageReturn(UniversalNewlines(s))
    decreases |s|
  {
    if |s| > 0 {
      var rest := if s[0] == '\r' && |s| > 1 && s[1] == '\n' then s[2..] else if s[0] == '\r' then s[1..] else s[1..];
      NewlinesNoCarriageReturn(rest);
      var x := if s[0] == '\r' then '\n' else s[0];
      assert UniversalNewlines(s) == [x] + UniversalNewlines(rest);
    }
  }

  /** `_is_duplicate(fact, existing)`. */
  predicate IsDuplicate(fact: string, existing: string) {
    Contains(Lower(existing), Lower(Strip(fact)))
  }

  /** The filter of `append_facts`: the fact is not blank and not yet present. */
  predicate Keep(fact: string, existing: string) {
    Strip(fact) != [] && !IsDuplicate(fact, existing)
  }

  /** `[f for f in facts if f.strip() and not _is_duplicate(f, existing)]`. */
  function NewFacts(facts: seq<string>, existing: string): (r: seq<string>)
    ensures |r| <= |facts|
  {
    Filter(facts, f => Keep(f, existing))
  }

  /** The default header `"## Session — <now>"`. */
  function SessionHeader(now: string): string {
    "## Session \U{2014} " + now
  }

  /** The header the block is written under: the given one, or the
      session header when it is empty. */
  function EntryHeader(header: string, now: string): string {
    if header == "" then SessionHeader(now) else header
  }

  /** `f"- {fact}"` for each fact. */
  function Bullets(facts: seq<string>): (r: seq<string>)
    ensures |r| == |facts|
    ensures forall i :: 0 <= i < |r| ==> r[i] == "- " + facts[i]
  {
    seq(|facts|, i requires 0 <= i < |facts| => "- " + facts[i])
  }

  /** `"\n".join(["\n", header, ""] + bullets + [""])`. */
  function Block(header: string, facts: seq<string>): string {
    Join("\n", ["\n", header, ""] + Bullets(facts) + [""])
  }

  // ---------------------------------------------------------------------------
  // Universal newlines
  // ---------------------------------------------------------------------------

  /** Text without a carriage return reads back unchanged. */
  lemma {:induction false} NewlinesPlain(s: string)
    requires NoCarriageReturn(s)
    ensures UniversalNewlines(s) == s
    decreases |s|
  {
    if |s| > 0 {
      NewlinesPlain(s[1..]);
      assert s == [s[0]] + s[1..];
    }
  }

  lemma NewlinesPlainWhen(s: string)
    ensures NoCarriageReturn(s) ==> UniversalNewlines(s) == s
  {
    if NoCarriageReturn(s) {
      NewlinesPlain(s);
    }
  }

  /** Appending to the stored text only extends what is read: the old
      reading is a prefix of the new one, even when a trailing `"\r"` and
      a leading `"\n"` become one line ending. */
  lemma {:induction false} NewlinesPrefix(a: string, c: string)
    ensures StartsWith(UniversalNewlines(a + c), UniversalNewlines(a))
    decreases |a|
  {
    var ra := UniversalNewlines(a);
    var rac := UniversalNewlines(a + c);
    if |a| == 0 {
      assert a + c == c;
    } else if a[0] == '\r' && |a| > 1 && a[1] == '\n' {
      assert (a + c)[2..] == a[2..] + c;
      NewlinesPrefix(a[2..], c);
      PrefixCons('\n', UniversalNewlines(a[2..] + c), UniversalNewlines(a[2..]));
    } else if a[0] == '\r' && |a| == 1 {
      assert ra == "\n";
      assert rac[..1] == "\n";
    } else {
      assert (a + c)[1..] == a[1..] + c;
      NewlinesPrefix(a[1..], c);
      PrefixCons(if a[0] == '\r' then '\n' else a[0], UniversalNewlines(a[1..] + c), UniversalNewlines(a[1..]));
    }
  }

  lemma PrefixCons(x: char, s: string, p: string)
    requires StartsWith(s, p)
    ensures StartsWith([x] + s, [x] + p)
  {
    assert ([x] + s)[..|p| + 1] == [x] + s[..|p|];
  }

  /** Reading distributes over a concatenation that does not split a
      `"\r\n"` pair. */
  lemma {:induction false} NewlinesAppend(a: string, c: string)
    requires a == [] || a[|a| - 1] != '\r' || c == [] || c[0] != '\n'
    ensures UniversalNewlines(a + c) == UniversalNewlines(a) + UniversalNewlines(c)
    decreases |a|
  {
    if |a| == 0 {
      assert a + c == c;
    } else if a[0] == '\r' && |a| > 1 && a[1] == '\n' {
      NewlinesAppend(a[2..], c);
      NewlinesAppendPair(a, c);
    } else if a[0] == '\r' && |a| == 1 {
      NewlinesAppendLone(a, c);
    } else {
      NewlinesAppend(a[1..], c);
      NewlinesAppendOne(a, c);
    }
  }

  /** The step of `NewlinesAppend` past a leading `"\r\n"`. */
  lemma NewlinesAppendPair(a: string, c: string)
    requires |a| > 1 && a[0] == '\r' && a[1] == '\n'
    requires UniversalNewlines(a[2..] + c) == UniversalNewlines(a[2..]) + UniversalNewlines(c)
    ensures UniversalNewlines(a + c) == UniversalNewlines(a) + UniversalNewlines(c)
  {
    var ac := a + c;
    assert ac[0] == '\r' && ac[1] == '\n' && ac[2..] == a[2..] + c;
    NewlinesPair(ac);
    NewlinesPair(a);
    ConsAppend('\n', UniversalNewlines(ac), UniversalNewlines(a), UniversalNewlines(a[2..]), UniversalNewlines(c));
  }

  lemma ConsAppend(x: char, u: string, v: string, p: string, q: string)
    requires u == [x] + (p + q) && v == [x] + p
    ensures u == v + q
  {
  }

  /** Reading a text that starts with `"\r\n"`. */
  lemma NewlinesPair(t: string)
    requires |t| > 1 && t[0] == '\r' && t[1] == '\n'
    ensures UniversalNewlines(t) == "\n" + UniversalNewlines(t[2..])
  {
  }

  /** The step of `NewlinesAppend` for a lone `"\r"` not followed by `"\n"`. */
  lemma NewlinesAppendLone(a: string, c: string)
    requires a == "\r" && (c == [] || c[0] != '\n')
    ensures UniversalNewlines(a + c) == UniversalNewlines(a) + UniversalNewlines(c)
  {
    var ac := a + c;
    assert ac[0] == '\r' && ac[1..] == c;
  }

  /** The step of `NewlinesAppend` past one character that does not start a
      `"\r\n"` pair. */
  lemma NewlinesAppendOne(a: string, c: string)
    requires |a| > 1 || (|a| == 1 && a[0] != '\r')
    requires !(a[0] == '\r' && |a| > 1 && a[1] == '\n')
    requires UniversalNewlines(a[1..] + c) == UniversalNewlines(a[1..]) + UniversalNewlines(c)
    ensures UniversalNewlines(a + c) == UniversalNewlines(a) + UniversalNewlines(c)
  {
    var ac := a + c;
    assert ac[0] == a[0] && ac[1..] == a[1..] + c;
    assert |a| > 1 ==> ac[1] == a[1];
    NewlinesOne(ac);
    NewlinesOne(a);
    var x := if a[0] == '\r' then '\n' else a[0];
    ConsAppend(x, UniversalNewlines(ac), UniversalNewlines(a), UniversalNewlines(a[1..]), UniversalNewlines(c));
  }

  /** Reading a text whose first character does not start a `"\r\n"` pair. */
  lemma NewlinesOne(t: string)
    requires |t| > 0 && !(t[0] == '\r' && |t| > 1 && t[1] == '\n')
    ensures UniversalNewlines(t) == [if t[0] == '\r' then '\n' else t[0]] + UniversalNewlines(t[1..])
  {
  }

  /** A piece without a carriage return that does not start with a line feed
      survives the reading of any text around it. */
  lemma ReadKeepsInfix(a: string, m: string, b: string)
    requires |m| > 0 && m[0] != '\n' && NoCarriageReturn(m)
    ensures Contains(UniversalNewlines(a + m + b), m)
  {
    assert a + m + b == a + (m + b);
    NewlinesAppend(a, m + b);
    NewlinesAppend(m, b);
    NewlinesPlain(m);
    assert UniversalNewlines(a + m + b) == UniversalNewlines(a) + m + UniversalNewlines(b);
    ContainsSelf(m);
    ContainsInfix(UniversalNewlines(a), m, UniversalNewlines(b), m);
  }

  /** A piece of a text without carriage returns has none either. */
  lemma NoCarriageReturnInfix(hay: string, needle: string)
    requires NoCarriageReturn(hay) && Contains(hay, needle)
    ensures NoCarriageReturn(needle)
  {
    var i :| 0 <= i <= |hay| - |needle| && OccursAt(hay, needle, i);
    forall k | 0 <= k < |needle| ensures needle[k] != '\r' {
      assert needle[k] == hay[i..i + |needle|][k] == hay[i + k];
    }
  }

  /** What `append_facts` returns and the file afterwards. */
  datatype Outcome = Outcome(written: nat, file: Option<string>)

  /** `append_facts(file_path, facts, header)`.  Opening in append mode
      creates a missing file holding only the block. */
  function AppendFacts(file: Option<string>, facts: seq<string>, header: string, now: string): (o: Outcome)
    ensures o.written <= |facts|
    ensures |facts| == 0 ==> o == Outcome(0, file)
    ensures o.written == 0 ==> o.file == file
    ensures o.written > 0 ==> o.file.Some? && StartsWith(o.file.value, file.GetOr(""))
  {
    if |facts| == 0 then Outcome(0, file)
    else
      var existing := ReadMemory(file);
      var kept := NewFacts(facts, existing);
      if |kept| == 0 then Outcome(0, file)
      else
        var stored := file.GetOr("");
        var s := stored + Block(EntryHeader(header, now), kept);
        assert s[..|stored|] == stored;
        Outcome(|kept|, Some(s))
  }

  // ---------------------------------------------------------------------------
  // The filter
  // ---------------------------------------------------------------------------

  /** The positions of the facts the filter keeps. */
  function KeptPositions(facts: seq<string>, existing: string): set<nat> {
    set i: nat | i < |facts| && Keep(facts[i], existing)
  }

  /** The filter keeps exactly the facts that pass `Keep`, one per kept
      position. */
  lemma NewFactsSpec(facts: seq<string>, existing: string)
    ensures forall f :: f in NewFacts(facts, existing) <==> f in facts && Keep(f, existing)
    ensures |NewFacts(facts, existing)| == |KeptPositions(facts, existing)|
  {
    var p := f => Keep(f, existing);
    FilterElems(facts, p);
    FilterCount(facts, p);
    assert Passing(facts, p) == KeptPositions(facts, existing);
  }

  // ---------------------------------------------------------------------------
  // append_facts
  // ---------------------------------------------------------------------------

  /** The count `append_facts` returns is the number of facts that are not
      blank and not yet present in what `read_memory` returns, and the new
      file is the old stored text with the block of the kept facts
      appended. */
  lemma AppendFactsSpec(file: Option<string>, facts: seq<string>, header: string, now: string)
    requires |facts| > 0
    ensures var o := AppendFacts(file, facts, header, now);
      var existing := ReadMemory(file);
      && o.written == |KeptPositions(facts, existing)|
      && (o.written > 0 ==>
            o.file == Some(file.GetOr("") + Block(EntryHeader(header, now), NewFacts(facts, existing))))
  {
    NewFactsSpec(facts, ReadMemory(file));
  }

  /** No facts, no change: the count is 0 and a missing file stays missing. */
  lemma AppendNothing(file: Option<string>, header: string, now: string)
    ensures AppendFacts(file, [], header, now) == Outcome(0, file)
    ensures file.None? ==> AppendFacts(file, [], header, now).file.None?
  {
  }

  /** Every kept fact occurs in the appended block. */
  lemma BlockHasFact(header: string, facts: seq<string>, i: nat)
    requires i < |facts|
    ensures Contains(Block(header, facts), facts[i])
  {
    var lines := ["\n", header, ""] + Bullets(facts) + [""];
    assert lines[3 + i] == "- " + facts[i];
    JoinContainsPart("\n", lines, 3 + i);
    ContainsSelf(facts[i]);
    ContainsInfix("- ", facts[i], [], facts[i]);
    assert "- " + facts[i] + [] == "- " + facts[i];
    ContainsTrans(Block(header, facts), "- " + facts[i], facts[i]);
  }

  /** After `append_facts`, every fact of the batch without a carriage
      return counts as a duplicate: it was present before, or it is in the
      block, or it is blank. */
  lemma AllPresentAfter(file: Option<string>, facts: seq<string>, header: string, now: string, f: string)
    requires f in facts && NoCarriageReturn(f)
    ensures !Keep(f, ReadMemory(AppendFacts(file, facts, header, now).file))
  {
    if Strip(f) != [] {
      if Keep(f, ReadMemory(file)) {
        KeptFactPresent(file, facts, header, now, f);
      } else {
        OldFactPresent(file, facts, header, now, f);
      }
    }
  }

  /** A fact the call keeps is read back from the file it leaves. */
  lemma KeptFactPresent(file: Option<string>, facts: seq<string>, header: string, now: string, f: string)
    requires f in facts && NoCarriageReturn(f) && Keep(f, ReadMemory(file))
    ensures IsDuplicate(f, ReadMemory(AppendFacts(file, facts, header, now).file))
  {
    var existing := ReadMemory(file);
    var kept := NewFacts(facts, existing);
    NewFactsSpec(facts, existing);
    var i :| 0 <= i < |kept| && kept[i] == f;
    var block := Block(EntryHeader(header, now), kept);
    assert AppendFacts(file, facts, header, now).file == Some(file.GetOr("") + block);
    BlockHasFact(EntryHeader(header, now), kept, i);
    StripSpec(f);
    ContainsTrans(block, f, Strip(f));
    NoCarriageReturnInfix(f, Strip(f));
    FactReadBack(file.GetOr(""), block, Strip(f));
    LowerContains(UniversalNewlines(file.GetOr("") + block), Strip(f));
  }

  /** A fact present before the call is present after it. */
  lemma OldFactPresent(file: Option<string>, facts: seq<string>, header: string, now: string, f: string)
    requires IsDuplicate(f, ReadMemory(file))
    ensures IsDuplicate(f, ReadMemory(AppendFacts(file, facts, header, now).file))
  {
    var o := AppendFacts(file, facts, header, now);
    if o.written > 0 {
      var stored := file.GetOr("");
      assert o.file.value == stored + o.file.value[|stored|..];
      ReadPrefixPresent(stored, o.file.value[|stored|..], f);
    }
  }

  /** A fact found in what is read from a text is still found once more
      text is appended. */
  lemma ReadPrefixPresent(stored: string, more: string, f: string)
    requires IsDuplicate(f, UniversalNewlines(stored))
    ensures IsDuplicate(f, UniversalNewlines(stored + more))
  {
    var existing := UniversalNewlines(stored);
    var after := UniversalNewlines(stored + more);
    NewlinesPrefix(stored, more);
    assert after == existing + after[|existing|..];
    PresentStaysPresent(existing, after[|existing|..], f);
  }

  /** A stripped, non-empty fact without carriage returns that occurs in the
      block is found when the file is read back. */
  lemma FactReadBack(stored: string, block: string, m: string)
    requires Contains(block, m) && |m| > 0 && !IsSpace(m[0]) && NoCarriageReturn(m)
    ensures Contains(UniversalNewlines(stored + block), m)
  {
    var k :| 0 <= k <= |block| - |m| && OccursAt(block, m, k);
    assert stored + block == (stored + block[..k]) + m + block[k + |m|..];
    ReadKeepsInfix(stored + block[..k], m, block[k + |m|..]);
  }

  /** A fact present before an append is present after it. */
  lemma PresentStaysPresent(existing: string, block: string, f: string)
    requires IsDuplicate(f, existing)
    ensures IsDuplicate(f, existing + block)
  {
    LowerAppend(existing, block);
    ContainsPrefix(Lower(existing), Lower(block), Lower(Strip(f)));
  }

  /** Idempotence: appending the same facts again writes nothing and leaves
      the file as the first append left it, so no fact without a carriage
      return is written twice. */
  lemma AppendTwice(file: Option<string>, facts: seq<string>, header: string, now: string, header': string, now': string)
    requires forall i :: 0 <= i < |facts| ==> NoCarriageReturn(facts[i])
    ensures var once := AppendFacts(file, facts, header, now);
      AppendFacts(once.file, facts, header', now') == Outcome(0, once.file)
  {
    var once := AppendFacts(file, facts, header, now);
    var after := ReadMemory(once.file);
    forall i | 0 <= i < |facts| ensures !Keep(facts[i], after) {
      AllPresentAfter(file, facts, header, now, facts[i]);
    }
    FilterNone(facts, f => Keep(f, after));
  }

  /** A fact whose stripped form holds a carriage return is never a
      duplicate, since the text read back holds none: it is written again
      on every call. */
  lemma CarriageReturnNeverDuplicate(f: string, file: Option<string>)
    requires !NoCarriageReturn(Strip(f))
    ensures !IsDuplicate(f, ReadMemory(file))
  {
    var t := Strip(f);
    var j :| 0 <= j < |t| && t[j] == '\r';
    assert Lower(t)[j] == '\r';
    var low := Lower(ReadMemory(file));
    assert NoCarriageReturn(low) by {
      forall k | 0 <= k < |low| ensures low[k] != '\r' {
        assert low[k] == ToLower(ReadMemory(file)[k]);
      }
    }
    NotContainedAt(low, Lower(t), j);
  }

  /** A text without carriage returns does not contain one that has a
      carriage return at position `j`. */
  lemma NotContainedAt(hay: string, needle: string, j: nat)
    requires NoCarriageReturn(hay) && j < |needle| && needle[j] == '\r'
    ensures !Contains(hay, needle)
  {
    forall i | 0 <= i <= |hay| - |needle| ensures !OccursAt(hay, needle, i) {
      assert hay[i..i + |needle|][j] == hay[i + j] != '\r';
    }
  }

  /** `"a\rb"` is written by the first call and written again by the
      second, which reads it back as `"a\nb"`. */
  lemma CarriageReturnWrittenAgain(now: string, now': string)
    ensures var once := AppendFacts(None, ["a\rb"], "", now);
      once.written == 1 && AppendFacts(once.file, ["a\rb"], "", now').written == 1
  {
    var f := "a\rb";
    assert !IsSpace(f[0]) && !IsSpace(f[2]);
    StripTight(f);
    assert f[1] == '\r';
    var once := AppendFacts(None, [f], "", now);
    CarriageReturnNeverDuplicate(f, None);
    AppendOne(None, f, "", now);
    CarriageReturnNeverDuplicate(f, once.file);
    AppendOne(once.file, f, "", now');
  }

  /** A single new fact is written. */
  lemma AppendOne(file: Option<string>, f: string, header: string, now: string)
    requires Keep(f, ReadMemory(file))
    ensures AppendFacts(file, [f], header, now).written == 1
  {
    assert [f][..0] == [];
    assert NewFacts([f], ReadMemory(file)) == [f];
  }

  /** Duplicates within one batch are compared with the file only, so both
      copies of a new fact are written. */
  lemma BatchDuplicatesWritten(file: Option<string>, f: string, header: string, now: string)
    requires Keep(f, ReadMemory(file))
    ensures AppendFacts(file, [f, f], header, now).written == 2
  {
    var e := ReadMemory(file);
    assert [f][..0] == [];
    assert NewFacts([f], e) == [f];
    assert [f, f][..1] == [f];
    assert NewFacts([f, f], e) == [f, f];
  }
}

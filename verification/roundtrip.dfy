/**
 The round trip between src/app/retrieval/retriever.py and
 src/app/generation/generator.py: the header `format_context` writes for a
 document, `[Source: s, Chunk c]`, is read back by the citation pattern as the
 key `(s.strip(), c)`, whatever text surrounds it, as long as the source name
 has no comma and no line feed and is not blank, and the chunk number is a
 non-negative integer.
 */
module RoundTrip {
  import opened Common
  import opened Text
  import opened Scan
  import opened Documents
  import opened Marker
  import opened Retriever
  import opened Generator

  /** A source name whose header reads back unambiguously. */
  predicate PlainSource(src: string) {
    (forall i :: 0 <= i < |src| ==> src[i] != ',' && src[i] != '\n') && !AllSpace(src)
  }

  /** `s` holds the header `[Source: src, Chunk ds]` at `p`, described
      position by position. */
  ghost predicate HeaderAt(s: string, p: nat, src: string, ds: string) {
    var q := p + 9 + |src|;
    && q + 9 + |ds| <= |s|
    && s[p..p + 8] == Open
    && s[p + 8] == ' '
    && (forall i {:trigger src[i]} :: 0 <= i < |src| ==> s[p + 9 + i] == src[i])
    && s[q] == ',' && s[q + 1] == ' ' && s[q + 2..q + 7] == ChunkWord && s[q + 7] == ' '
    && (forall i {:trigger ds[i]} :: 0 <= i < |ds| ==> s[q + 8 + i] == ds[i])
    && s[q + 8 + |ds|] == ']'
  }

  lemma HeaderChars(pre: string, src: string, ds: string, post: string)
    ensures HeaderAt(pre + Header(src, ds) + post, |pre|, src, ds)
    ensures |pre + Header(src, ds) + post| == |pre| + |Header(src, ds)| + |post|
    ensures |Header(src, ds)| == 18 + |src| + |ds|
  {
    var s := pre + Header(src, ds) + post;
    var p := |pre|;
    var q := p + 9 + |src|;
    assert s == pre + "[Source: " + src + ", Chunk " + ds + "]" + post;
    assert s[p..p + 8] == Open by {
      forall i | 0 <= i < 8 ensures s[p..p + 8][i] == Open[i] {
        assert s[p + i] == "[Source: "[i];
      }
    }
    assert s[q + 2..q + 7] == ChunkWord by {
      forall i | 0 <= i < 5 ensures s[q + 2..q + 7][i] == ChunkWord[i] {
        assert s[q + 2 + i] == ", Chunk "[2 + i];
      }
    }
  }

  /** `src` starts with exactly `w` whitespace characters and has more
      after them. */
  ghost predicate LeadingSpace(src: string, w: nat) {
    w < |src| && (forall i :: 0 <= i < w ==> IsSpace(src[i])) && !IsSpace(src[w])
  }

  /** A plain source name starts with the whitespace `str.lstrip` removes. */
  lemma PlainSourceSplit(src: string)
    requires PlainSource(src)
    ensures var w := |src| - |LStrip(src)|;
      LeadingSpace(src, w) && src[w..] == LStrip(src)
  {
    var r := LStrip(src);
    if r == [] {
      assert AllSpace(src);
    }
  }

  /** After the name, the tail matches. */
  lemma HeaderTail(s: string, p: nat, src: string, ds: string)
    requires HeaderAt(s, p, src, ds) && |ds| >= 1 && AllDigits(ds)
    ensures var q := p + 9 + |src|;
      TailAt(s, q) == Some(Tail(ds, q + 9 + |ds|))
  {
    var q := p + 9 + |src|;
    WordAtIff(s, q + 2, ChunkWord);
    assert SpaceBetween(s, q + 1, q + 2);
    assert SpaceBetween(s, q + 7, q + 8);
    assert DigitsBetween(s, q + 8, q + 8 + |ds|) by {
      forall k | q + 8 <= k < q + 8 + |ds| ensures IsDigit(s[k]) {
        assert s[k] == ds[k - q - 8];
      }
    }
    assert TailShape(s, q, 1, 1, |ds|);
    TailUnique(s, q, 1, 1, |ds|);
    assert s[q + 8..q + 8 + |ds|] == ds;
  }

  /** The header at `p` is a candidate match: the whole leading whitespace
      and the rest of the name as the group. */
  lemma HeaderCandidate(s: string, p: nat, src: string, ds: string, w: nat)
    requires HeaderAt(s, p, src, ds) && PlainSource(src) && LeadingSpace(src, w)
    requires |ds| >= 1 && AllDigits(ds)
    ensures Candidate(s, p, 1 + w, |src| - w)
  {
    var q := p + 9 + |src|;
    WordAtIff(s, p, Open);
    assert OpenAt(s, p);
    assert SpaceBetween(s, p + 8, p + 9 + w) by {
      forall j | p + 8 <= j < p + 9 + w ensures IsSpace(s[j]) {
        if j > p + 8 { assert s[j] == src[j - p - 9]; }
      }
    }
    assert GroupOk(s, p + 9 + w, |src| - w) by {
      forall j | p + 9 + w <= j < q ensures s[j] != '\n' {
        assert s[j] == src[j - p - 9];
      }
    }
    HeaderTail(s, p, src, ds);
    assert HasTail(s)(q);
  }

  /** No candidate at `p` beats the header's: none has more leading
      whitespace, and with as much, none has a shorter name, because the
      name holds no comma. */
  lemma HeaderBest(s: string, p: nat, src: string, ds: string, w: nat)
    requires HeaderAt(s, p, src, ds) && PlainSource(src) && LeadingSpace(src, w)
    requires |ds| >= 1 && AllDigits(ds)
    ensures Chosen(s, p, 1 + w, |src| - w)
  {
    var q := p + 9 + |src|;
    HeaderCandidate(s, p, src, ds, w);
    assert s[p + 9 + w] == src[w];
    assert SpaceBetween(s, p + 8, p + 9 + w);
    WsRunExact(s, p + 8, 1 + w);
    forall j: nat | p + 9 + w <= j < q ensures !HasTail(s)(j) {
      assert s[j] == src[j - p - 9];
    }
    forall k': nat, m': nat | Candidate(s, p, k', m')
      ensures k' < 1 + w || (k' == 1 + w && |src| - w <= m')
    {
      CandidateWithinRun(s, p + 8, k', m');
    }
  }

  /** The marker pattern at `p` matches the whole header and captures the
      name without its leading whitespace and the chunk digits. */
  lemma HeaderMatch(s: string, p: nat, src: string, ds: string, w: nat)
    requires HeaderAt(s, p, src, ds) && PlainSource(src) && LeadingSpace(src, w)
    requires |ds| >= 1 && AllDigits(ds)
    ensures MatchAt(s, p) == Some(Hit(p, p + 18 + |src| + |ds|, Marker(src[w..], ds)))
  {
    HeaderBest(s, p, src, ds, w);
    ChosenIsMatch(s, p, 1 + w, |src| - w);
    HeaderHit(s, p, src, ds, w);
  }

  /** The hit the header's candidate denotes. */
  lemma HeaderHit(s: string, p: nat, src: string, ds: string, w: nat)
    requires HeaderAt(s, p, src, ds) && LeadingSpace(src, w) && |ds| >= 1 && AllDigits(ds)
    requires Candidate(s, p, 1 + w, |src| - w)
    ensures HitOf(s, p, 1 + w, |src| - w) == Hit(p, p + 18 + |src| + |ds|, Marker(src[w..], ds))
  {
    var q := p + 9 + |src|;
    var g := p + 8 + (1 + w);
    assert g + (|src| - w) == q;
    HeaderTail(s, p, src, ds);
    assert s[g..q] == src[w..] by {
      forall i | 0 <= i < |src| - w ensures s[g..q][i] == src[w..][i] {
        assert src[w + i] == s[p + 9 + (w + i)];
      }
    }
  }

  /** The key read back from the header of chunk `c` of `src`. */
  lemma HeaderKey(src: string, c: nat)
    ensures AllDigits(NatToDecimal(c)) && KeyOf(Marker(LStrip(src), NatToDecimal(c))) == Key(Strip(src), c)
  {
    StripOfLStrip(src);
    DecimalRoundTrip(c);
  }

  /** The match at a header of chunk `c`: it spans the header and its key
      is the stripped source name and the chunk number. */
  lemma HeaderMatchKey(s: string, p: nat, src: string, c: nat)
    requires HeaderAt(s, p, src, NatToDecimal(c)) && PlainSource(src)
    ensures MatchAt(s, p).Some?
    ensures MatchAt(s, p).value.end == p + 18 + |src| + |NatToDecimal(c)|
    ensures AllDigits(MatchAt(s, p).value.info.digits)
    ensures KeyOf(MatchAt(s, p).value.info) == Key(Strip(src), c)
  {
    var w := |src| - |LStrip(src)|;
    PlainSourceSplit(src);
    HeaderMatch(s, p, src, NatToDecimal(c), w);
    HeaderKey(src, c);
  }

  /** A header of chunk `c` at `p`, with no `[` before it, gives the first
      key read from the text; when the header ends the text, the only one. */
  lemma FirstKeyAt(s: string, p: nat, src: string, c: nat, docs: seq<Doc>)
    requires HeaderAt(s, p, src, NatToDecimal(c)) && PlainSource(src)
    requires forall i :: 0 <= i < p ==> s[i] != '['
    ensures |MarkerKeys(s)| > 0 && MarkerKeys(s)[0] == Key(Strip(src), c)
    ensures p + 18 + |src| + |NatToDecimal(c)| == |s| ==>
      Citations(s, docs) == [CitationFor(docs, Key(Strip(src), c))]
  {
    HeaderMatchKey(s, p, src, c);
    var h := MatchAt(s, p).value;
    FindMarkersFirst(s, p, h);
    FirstMarkerKey(s, h, FindAll(Matcher(s), |s|, h.end));
    if h.end == |s| {
      SingleMarkerCitation(s, docs, h);
    }
  }

  /** A text with a header after a stretch without `[` reads back the
      header's key first. */
  lemma FirstKeyIsHeader(pre: string, src: string, c: nat, post: string)
    requires PlainSource(src) && forall i :: 0 <= i < |pre| ==> pre[i] != '['
    ensures var s := pre + Header(src, IntToDecimal(c)) + post;
      |MarkerKeys(s)| > 0 && MarkerKeys(s)[0] == Key(Strip(src), c)
  {
    var s := pre + Header(src, NatToDecimal(c)) + post;
    HeaderChars(pre, src, NatToDecimal(c), post);
    assert forall i :: 0 <= i < |pre| ==> s[i] == pre[i];
    FirstKeyAt(s, |pre|, src, c, []);
  }

  /** A reply that is just a header yields exactly one citation, for the
      stripped source name and the chunk number. */
  lemma HeaderAloneCitation(src: string, c: nat, docs: seq<Doc>)
    requires PlainSource(src)
    ensures Citations(Header(src, IntToDecimal(c)), docs) == [CitationFor(docs, Key(Strip(src), c))]
  {
    var h := Header(src, NatToDecimal(c));
    HeaderChars([], src, NatToDecimal(c), []);
    assert [] + h + [] == h;
    FirstKeyAt(h, 0, src, c, docs);
  }

  /** The context's first header reads back as the first document's key. */
  lemma ContextFirstKey(docs: seq<Doc>, src: string, c: nat)
    requires |docs| > 0 && docs[0].source == Some(src) && docs[0].chunkId == Some(c)
    requires PlainSource(src)
    ensures |MarkerKeys(FormatContext(docs))| > 0
    ensures MarkerKeys(FormatContext(docs))[0] == Key(Strip(src), c)
  {
    var d := docs[0];
    var pre := "--- Document " + NatToDecimal(1) + " ---\n";
    var ctx := FormatContext(docs);
    var b := Block(1, d);
    FormatContextStartsWithFirstBlock(docs);
    var post := "\n" + Content(d) + ctx[|b|..];
    assert ctx == b + ctx[|b|..];
    assert ctx == pre + Header(src, IntToDecimal(c)) + post;
    assert NatToDecimal(1) == "1";
    assert forall i :: 0 <= i < |pre| ==> pre[i] != '[';
    FirstKeyIsHeader(pre, src, c, post);
  }

  /** End to end: a reply that quotes a document's header cites it, and when
      the source name carries no edge whitespace and no earlier document has
      the same source and chunk, the snippet is that document's. */
  lemma QuotedHeaderCitesDocument(docs: seq<Doc>, i: nat, src: string, c: nat)
    requires i < |docs| && docs[i].source == Some(src) && docs[i].chunkId == Some(c)
    requires PlainSource(src) && Strip(src) == src
    requires forall j :: 0 <= j < i ==> !DocMatches(docs[j], Key(src, c))
    ensures Citations(Header(SourceLabel(docs[i]), ChunkLabel(docs[i])), docs)
      == [Citation(src, c, Take(docs[i].pageContent, SnippetLength))]
  {
    HeaderAloneCitation(src, c, docs);
    assert FirstMatch(docs, Key(src, c), i);
    SnippetSpec(docs, Key(src, c));
  }
}

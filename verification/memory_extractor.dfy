/**
 src/app/memory/memory_extractor.py: turning the memory curator's reply into
 a `MemoryDecision`.  The model call is an input (`None` when it raised), and
 so is the JSON decoder, as a function from text to what it decodes: not
 JSON at all, a JSON value that is not an object, or an object with the four
 fields each present or missing.  Any failure yields the default decision.
 */
module MemoryExtractor {
  import opened Common
  import opened Text

  /** `MemoryDecision`. */
  datatype Decision = Decision(shouldSave: bool, userFacts: seq<string>, companyFacts: seq<string>, confidence: Float)

  /** `MemoryDecision()`: nothing to save, no facts, confidence 0.0. */
  const Default := Decision(false, [], [], Finite(0.0))

  /** A `confidence` field as `float()` sees it: a number (finite, infinite
      or NaN), or a value `float()` rejects. */
  datatype Confidence = Number(value: Float) | Unconvertible

  /** What `json.loads` makes of the text.  `Object` records, for each of the
      four keys, the value present or `None` when the key is missing. */
  datatype Parsed =
    | NotJson
    | NotObject
    | Object(shouldSave: Option<bool>, userFacts: Option<seq<string>>,
             companyFacts: Option<seq<string>>, confidence: Option<Confidence>)

  const Fence := "```"

  // ---------------------------------------------------------------------------
  // Searching
  // ---------------------------------------------------------------------------

  /** The first position of `c` in `s`, if any. */
  function FirstIndexOf(s: string, c: char): (r: Option<nat>)
    ensures r.Some? ==> r.value < |s| && s[r.value] == c && forall j :: 0 <= j < r.value ==> s[j] != c
    ensures r.None? ==> forall j :: 0 <= j < |s| ==> s[j] != c
    decreases |s|
  {
    if |s| == 0 then None
    else if s[0] == c then Some(0)
    else match FirstIndexOf(s[1..], c)
      case None => None
      case Some(i) => Some(i + 1)
  }

  /** `s.rfind(needle)`: the last position where `needle` occurs. */
  function LastIndexOf(s: string, needle: string): (r: Option<nat>)
    ensures r.Some? ==> OccursAt(s, needle, r.value)
    ensures r.Some? ==> forall j :: r.value < j <= |s| - |needle| ==> !OccursAt(s, needle, j)
    ensures r.None? <==> !Contains(s, needle)
  {
    LastFrom(s, needle, |s|)
  }

  /** The last occurrence of `needle` starting at or before `i`. */
  function LastFrom(s: string, needle: string, i: nat): (r: Option<nat>)
    ensures r.Some? ==> r.value <= i && OccursAt(s, needle, r.value)
    ensures r.Some? ==> forall j :: r.value < j <= i ==> !OccursAt(s, needle, j)
    ensures r.None? <==> forall j :: 0 <= j <= i ==> !OccursAt(s, needle, j)
    decreases i
  {
    if OccursAt(s, needle, i) then Some(i)
    else if i == 0 then None
    else LastFrom(s, needle, i - 1)
  }

  // ---------------------------------------------------------------------------
  // Fences
  // ---------------------------------------------------------------------------

  /** `s.split("\n", 1)[-1]`: the text after the first line feed, or all of
      it when there is none. */
  function AfterFirstLine(s: string): (r: string)
    ensures |r| <= |s| && r == s[|s| - |r|..]
  {
    match FirstIndexOf(s, '\n')
    case None => s
    case Some(i) => s[i + 1..]
  }

  /** `s.rsplit("```", 1)[0]`: the text before the last fence, or all of it
      when there is none. */
  function BeforeLastFence(s: string): (r: string)
    ensures |r| <= |s| && r == s[..|r|]
  {
    match LastIndexOf(s, Fence)
    case None => s
    case Some(i) => s[..i]
  }

  /** The fence stripping of `extract_memory`, on the already trimmed reply. */
  function Unfence(raw: string): (r: string)
    ensures !StartsWith(raw, Fence) ==> r == raw
    ensures StartsWith(raw, Fence) ==> r == Strip(r) && Contains(raw, r)
  {
    if StartsWith(raw, Fence) then
      var a := AfterFirstLine(raw);
      var inner := BeforeLastFence(a);
      InnerContained(raw, a, inner);
      Strip(inner)
    else raw
  }

  /** A trimmed prefix of a suffix of `raw` occurs in `raw`. */
  lemma InnerContained(raw: string, a: string, inner: string)
    requires |a| <= |raw| && a == raw[|raw| - |a|..]
    requires |inner| <= |a| && inner == a[..|inner|]
    ensures Strip(inner) == Strip(Strip(inner)) && Contains(raw, Strip(inner))
  {
    SliceContained(raw, a, inner);
    StripIdempotent(inner);
    StripSpec(inner);
    ContainsTrans(raw, inner, Strip(inner));
  }

  lemma SliceContained(raw: string, a: string, inner: string)
    requires |a| <= |raw| && a == raw[|raw| - |a|..]
    requires |inner| <= |a| && inner == a[..|inner|]
    ensures Contains(raw, inner)
  {
    var i := |raw| - |a|;
    assert raw[i..i + |inner|] == inner;
    assert OccursAt(raw, inner, i);
  }

  /** A fenced block with a one-line opening tag loses the tag line and the
      closing fence, and is trimmed: `"```json\n{X}\n```"` becomes `{X}`. */
  lemma FenceRoundTrip(tag: string, body: string)
    requires forall i :: 0 <= i < |tag| ==> tag[i] != '\n'
    ensures Unfence(Fence + tag + "\n" + body + Fence) == Strip(body)
  {
    var raw := Fence + tag + "\n" + body + Fence;
    assert StartsWith(raw, Fence) by { assert raw[..3] == Fence; }
    FirstLineDropped(Fence + tag, body + Fence);
    assert raw == (Fence + tag) + "\n" + (body + Fence);
    LastFenceAtEnd(body);
  }

  /** The first line, through its line feed, is what `split` drops. */
  lemma FirstLineDropped(line: string, rest: string)
    requires forall i :: 0 <= i < |line| ==> line[i] != '\n'
    ensures AfterFirstLine(line + "\n" + rest) == rest
  {
    var s := line + "\n" + rest;
    assert s[|line|] == '\n';
    forall j | 0 <= j < |line| ensures s[j] != '\n' {
      assert s[j] == line[j];
    }
    assert FirstIndexOf(s, '\n') == Some(|line|);
    assert s[|line| + 1..] == rest;
  }

  /** The last fence of `body + "```"` is the closing one. */
  lemma LastFenceAtEnd(body: string)
    ensures BeforeLastFence(body + Fence) == body
  {
    var s := body + Fence;
    assert OccursAt(s, Fence, |body|) by { assert s[|body|..] == Fence; }
    assert LastIndexOf(s, Fence) == Some(|body|);
  }

  // ---------------------------------------------------------------------------
  // Decoding
  // ---------------------------------------------------------------------------

  /** The decision built from what the decoder returned: missing keys take
      their defaults and a confidence `float()` rejects raises, which the
      handler turns into the default decision. */
  function FromParsed(p: Parsed): (d: Decision)
    ensures !p.Object? ==> d == Default
    ensures p.Object? && p.confidence == Some(Unconvertible) ==> d == Default
    ensures p.Object? && p.confidence != Some(Unconvertible) ==>
      && (p.shouldSave.Some? ==> d.shouldSave == p.shouldSave.value)
      && (p.shouldSave.None? ==> !d.shouldSave)
      && (p.userFacts.Some? ==> d.userFacts == p.userFacts.value)
      && (p.userFacts.None? ==> d.userFacts == [])
      && (p.companyFacts.Some? ==> d.companyFacts == p.companyFacts.value)
      && (p.companyFacts.None? ==> d.companyFacts == [])
      && (p.confidence.Some? ==> d.confidence == p.confidence.value.value)
      && (p.confidence.None? ==> d.confidence == Finite(0.0))
  {
    match p
    case NotJson => Default
    case NotObject => Default
    case Object(save, user, company, conf) =>
      match conf
      case Some(Unconvertible) => Default
      case Some(Number(c)) => Decision(save.GetOr(false), user.GetOr([]), company.GetOr([]), c)
      case None => Decision(save.GetOr(false), user.GetOr([]), company.GetOr([]), Finite(0.0))
  }

  /** `extract_memory`: the reply, trimmed and unfenced, decoded. */
  function ExtractMemory(reply: Option<string>, decode: string -> Parsed): (d: Decision)
    ensures reply.None? ==> d == Default
    ensures reply.Some? && !decode(Unfence(Strip(reply.value))).Object? ==>
      !d.shouldSave && d.userFacts == [] && d.companyFacts == [] && d.confidence == Finite(0.0)
    ensures reply.Some? && !StartsWith(Strip(reply.value), Fence) ==> d == FromParsed(decode(Strip(reply.value)))
  {
    match reply
    case None => Default
    case Some(content) => FromParsed(decode(Unfence(Strip(content))))
  }

  // ---------------------------------------------------------------------------
  // Properties
  // ---------------------------------------------------------------------------

  /** A fully present object decodes to exactly its fields, and every such
      decision can be produced this way. */
  lemma DecisionRoundTrip(d: Decision)
    ensures FromParsed(Object(Some(d.shouldSave), Some(d.userFacts), Some(d.companyFacts),
                              Some(Number(d.confidence)))) == d
  {
  }

  /** The fenced reply of the extractor's tests: the JSON between the fences
      reaches the decoder, trimmed. */
  lemma FencedReply(x: string, decode: string -> Parsed)
    ensures ExtractMemory(Some("```json\n" + x + "\n```"), decode) == FromParsed(decode(Strip(x + "\n")))
  {
    var raw := "```json\n" + x + "\n```";
    assert raw == Fence + "json" + "\n" + (x + "\n") + Fence;
    assert raw[0] == '`' && raw[|raw| - 1] == '`';
    StripTight(raw);
    FenceRoundTrip("json", x + "\n");
  }
}

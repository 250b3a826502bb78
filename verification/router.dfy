/**
 `route_query` of src/app/routing/router.py: decoding the classifier's reply
 into one of three routes.  The model call is an input: `Some(content)` for
 the reply's text, `None` when the call raised.  The reply is stripped and
 lower-cased, then the route names are tried as substrings in the iteration
 order of the set `VALID_ROUTES`; Python leaves that order unspecified, so it
 is a parameter here, any permutation of the three routes.
 */
module Router {
  import opened Common
  import opened Text

  datatype Route = DocumentSearch | MemoryLookup | General

  /** The route's name as the classifier is asked to write it. */
  function Name(r: Route): string {
    match r
    case DocumentSearch => "document_search"
    case MemoryLookup => "memory_lookup"
    case General => "general"
  }

  /** An iteration order of `VALID_ROUTES`: each route exactly once. */
  predicate IsOrder(order: seq<Route>) {
    |order| == 3 && DocumentSearch in order && MemoryLookup in order && General in order
  }

  /** `response.content.strip().lower()`. */
  function Normalise(content: string): string {
    Lower(Strip(content))
  }

  /** The route's name occurs in the normalised reply. */
  predicate Mentions(raw: string, r: Route) {
    Contains(raw, Name(r))
  }

  /** The route a matched name leads to: `document_search` without a loaded
      vector store is downgraded to `general`. */
  function Downgrade(r: Route, hasVectorstore: bool): (d: Route)
    ensures d == DocumentSearch ==> hasVectorstore
    ensures d != r ==> r == DocumentSearch && d == General
  {
    if r == DocumentSearch && !hasVectorstore then General else r
  }

  /** The first route in `order` satisfying `found`. */
  function FirstWhere(order: seq<Route>, found: Route -> bool): (r: Option<Route>)
    ensures r.Some? ==> r.value in order && found(r.value)
    ensures r.None? <==> forall i :: 0 <= i < |order| ==> !found(order[i])
    decreases |order|
  {
    if |order| == 0 then None
    else if found(order[0]) then Some(order[0])
    else
      var r := FirstWhere(order[1..], found);
      assert forall i :: 1 <= i < |order| ==> order[i] == order[1..][i - 1];
      r
  }

  /** The route decoded from the normalised reply `raw`: the first route in
      `order` whose name occurs in it, downgraded when needed, else
      `general`. */
  function Decide(raw: string, hasVectorstore: bool, order: seq<Route>): (r: Route)
    requires IsOrder(order)
    ensures !hasVectorstore ==> r != DocumentSearch
    ensures r != General ==> Mentions(raw, r)
  {
    match FirstWhere(order, r => Mentions(raw, r))
    case Some(route) => Downgrade(route, hasVectorstore)
    case None => General
  }

  /** `route_query` after the model call. */
  function RouteQuery(reply: Option<string>, hasVectorstore: bool, order: seq<Route>): (r: Route)
    requires IsOrder(order)
    ensures !hasVectorstore ==> r != DocumentSearch
    ensures reply.None? ==> r == General
    ensures r != General ==> reply.Some? && Mentions(Normalise(reply.value), r)
  {
    match reply
    case None => General
    case Some(content) => Decide(Normalise(content), hasVectorstore, order)
  }

  /** The `for` loop of `route_query`, returning from inside the loop. */
  method DecodeRoute(content: string, hasVectorstore: bool, order: seq<Route>) returns (r: Route)
    requires IsOrder(order)
    ensures r == RouteQuery(Some(content), hasVectorstore, order)
  {
    var raw := Normalise(content);
    ghost var found := (r: Route) => Mentions(raw, r);
    var i := 0;
    while i < |order|
      invariant 0 <= i <= |order|
      invariant FirstWhere(order, found) == FirstWhere(order[i..], found)
    {
      assert order[i..][1..] == order[i + 1..];
      if Contains(raw, Name(order[i])) {
        if order[i] == DocumentSearch && !hasVectorstore {
          return General;
        }
        return order[i];
      }
      i := i + 1;
    }
    return General;
  }

  // ---------------------------------------------------------------------------
  // Properties
  // ---------------------------------------------------------------------------

  /** The search stops at the first route satisfying `found`. */
  lemma {:induction false} FirstWhereAt(order: seq<Route>, found: Route -> bool, i: nat)
    requires i < |order| && found(order[i])
    requires forall j :: 0 <= j < i ==> !found(order[j])
    ensures FirstWhere(order, found) == Some(order[i])
    decreases i
  {
    if i > 0 {
      assert !found(order[0]);
      assert forall j :: 0 <= j < i - 1 ==> order[1..][j] == order[j + 1];
      FirstWhereAt(order[1..], found, i - 1);
    }
  }

  /** When exactly one route satisfies `found`, every order finds it. */
  lemma FirstWhereOnly(order: seq<Route>, found: Route -> bool, r: Route)
    requires IsOrder(order) && found(r)
    requires forall r': Route :: r' != r ==> !found(r')
    ensures FirstWhere(order, found) == Some(r)
  {
    var i :| 0 <= i < |order| && order[i] == r;
    FirstWhereAt(order, found, i);
  }

  /** What the decoding means, without reference to the search: the result
      is the downgraded first route of `order` mentioned in the reply, or
      `general` when none is mentioned. */
  lemma DecideSpec(raw: string, hasVectorstore: bool, order: seq<Route>)
    requires IsOrder(order)
    ensures var r := Decide(raw, hasVectorstore, order);
      && ((forall i :: 0 <= i < 3 ==> !Mentions(raw, order[i])) ==> r == General)
      && (forall i :: 0 <= i < 3 && Mentions(raw, order[i]) && (forall j :: 0 <= j < i ==> !Mentions(raw, order[j]))
            ==> r == Downgrade(order[i], hasVectorstore))
  {
    var found := (r: Route) => Mentions(raw, r);
    forall i | 0 <= i < 3 && Mentions(raw, order[i]) && (forall j :: 0 <= j < i ==> !Mentions(raw, order[j]))
      ensures FirstWhere(order, found) == Some(order[i])
    {
      FirstWhereAt(order, found, i);
    }
  }

  /** A reply mentioning no route name decodes to `general`. */
  lemma NoNameIsGeneral(raw: string, hasVectorstore: bool, order: seq<Route>)
    requires IsOrder(order)
    requires forall r: Route :: !Mentions(raw, r)
    ensures Decide(raw, hasVectorstore, order) == General
  {
    var found := (r: Route) => Mentions(raw, r);
    assert forall i :: 0 <= i < |order| ==> !found(order[i]);
  }

  /** When exactly one route name occurs, the result does not depend on the
      iteration order: it is that route, downgraded when needed. */
  lemma OneNameAnyOrder(raw: string, hasVectorstore: bool, order: seq<Route>, r: Route)
    requires IsOrder(order)
    requires Mentions(raw, r)
    requires forall r': Route :: r' != r ==> !Mentions(raw, r')
    ensures Decide(raw, hasVectorstore, order) == Downgrade(r, hasVectorstore)
  {
    FirstWhereOnly(order, r' => Mentions(raw, r'), r);
  }

  // ---------------------------------------------------------------------------
  // The replies of tests/test_router.py
  // ---------------------------------------------------------------------------

  /** `needle` does not occur in `hay` when its first character is at no
      position where it could start. */
  lemma AbsentFirstChar(hay: string, needle: string)
    requires |needle| > 0 && forall i :: 0 <= i <= |hay| - |needle| ==> hay[i] != needle[0]
    ensures !Contains(hay, needle)
  {
    forall i | 0 <= i <= |hay| - |needle| ensures !OccursAt(hay, needle, i) {
      assert hay[i..i + |needle|][0] == hay[i];
    }
  }

  /** `needle` does not occur in `hay` when its first two characters are at
      no position where it could start. */
  lemma AbsentFirstPair(hay: string, needle: string)
    requires |needle| > 1
    requires forall i :: 0 <= i <= |hay| - |needle| ==> hay[i] != needle[0] || hay[i + 1] != needle[1]
    ensures !Contains(hay, needle)
  {
    forall i | 0 <= i <= |hay| - |needle| ensures !OccursAt(hay, needle, i) {
      assert hay[i..i + |needle|][0] == hay[i];
      assert hay[i..i + |needle|][1] == hay[i + 1];
    }
  }

  /** Upper case decodes: `"DOCUMENT_SEARCH"` is `document_search`, whatever
      the order, and `general` without a vector store. */
  lemma UpperCaseReply(order: seq<Route>)
    requires IsOrder(order)
    ensures RouteQuery(Some("DOCUMENT_SEARCH"), true, order) == DocumentSearch
    ensures RouteQuery(Some("DOCUMENT_SEARCH"), false, order) == General
  {
    var raw := "document_search";
    UpperNormalise();
    OnlyDocumentSearch();
    OneNameAnyOrder(raw, true, order, DocumentSearch);
    OneNameAnyOrder(raw, false, order, DocumentSearch);
  }

  lemma UpperNormalise()
    ensures Normalise("DOCUMENT_SEARCH") == "document_search"
  {
    StripTight("DOCUMENT_SEARCH");
  }

  lemma OnlyDocumentSearch()
    ensures Mentions("document_search", DocumentSearch)
    ensures forall r': Route :: r' != DocumentSearch ==> !Mentions("document_search", r')
  {
    var raw := "document_search";
    assert OccursAt(raw, Name(DocumentSearch), 0);
    AbsentFirstPair(raw, Name(MemoryLookup));
    AbsentFirstChar(raw, Name(General));
  }

  /** Surrounding whitespace is ignored: `"  memory_lookup  \n"` is
      `memory_lookup`, whatever the order. */
  lemma PaddedReply(order: seq<Route>, hasVectorstore: bool)
    requires IsOrder(order)
    ensures RouteQuery(Some("  memory_lookup  \n"), hasVectorstore, order) == MemoryLookup
  {
    PaddedNormalise();
    OnlyMemoryLookup();
    OneNameAnyOrder("memory_lookup", hasVectorstore, order, MemoryLookup);
  }

  lemma PaddedNormalise()
    ensures Normalise("  memory_lookup  \n") == "memory_lookup"
  {
    PaddedStrip();
    LowerMemoryLookup();
  }

  lemma LowerMemoryLookup()
    ensures Lower("memory_lookup") == "memory_lookup"
  {
    LowerNoCapitals("memory_lookup");
  }

  lemma PaddedStrip()
    ensures Strip("  memory_lookup  \n") == "memory_lookup"
  {
    var a, t, b := "  ", "memory_lookup", "  \n";
    assert AllSpace(a) && AllSpace(b);
    assert !IsSpace(t[0]) && !IsSpace(t[|t| - 1]);
    assert "  memory_lookup  \n" == a + t + b;
    StripPadded(a, t, b);
  }

  lemma OnlyMemoryLookup()
    ensures Mentions("memory_lookup", MemoryLookup)
    ensures forall r': Route :: r' != MemoryLookup ==> !Mentions("memory_lookup", r')
  {
    var raw := "memory_lookup";
    assert OccursAt(raw, Name(MemoryLookup), 0);
    AbsentFirstChar(raw, Name(DocumentSearch));
    AbsentFirstChar(raw, Name(General));
  }

  /** A reply that names no route decodes to `general`. */
  lemma InvalidReply(order: seq<Route>, hasVectorstore: bool)
    requires IsOrder(order)
    ensures RouteQuery(Some("invalid_route_name"), hasVectorstore, order) == General
  {
    var raw := "invalid_route_name";
    InvalidNormalise();
    NoRouteInInvalid();
    NoNameIsGeneral(raw, hasVectorstore, order);
  }

  lemma InvalidNormalise()
    ensures Normalise("invalid_route_name") == "invalid_route_name"
  {
    StripTight("invalid_route_name");
    LowerNoCapitals("invalid_route_name");
  }

  lemma NoRouteInInvalid()
    ensures forall r: Route :: !Mentions("invalid_route_name", r)
  {
    var raw := "invalid_route_name";
    AbsentFirstPair(raw, Name(DocumentSearch));
    AbsentFirstPair(raw, Name(MemoryLookup));
    AbsentFirstChar(raw, Name(General));
  }
}

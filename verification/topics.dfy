/**
 * The "add topic" handler, `POST /dashboard` (app.js:188-241): normalise
 * the query, look up a page summary, fall back to a search when the
 * summary has no extract, truncate what was found, and save a search row
 * whether or not any of that worked.
 *
 * The external source is given as the replies it returns at each of the
 * three points where the handler may ask; the requests the handler makes
 * are recorded so that what it asks for can be stated. Whether each of
 * the two possible inserts throws is an input as well: the in-memory
 * tables have no I/O to fail.
 */
module Topics {
  import opened Wrappers
  import opened Text
  import opened Store

  const Placeholder := "No information found"
  const AddedMessage := "Topic added successfully!"
  const DegradedMessage := "Could not fetch description, but topic saved with placeholder."
  const SuccessKind := "success"

  /** A reply of the page-summary endpoint: a thrown fault (network error, 404, ...) or a body with an optional `extract`. */
  datatype Summary = SummaryFault | Page(extract: Option<string>)

  /** A reply of the search endpoint: a thrown fault, or the titles listed under `query.search` (none when the fields are absent). */
  datatype SearchReply = SearchFault | Hits(titles: seq<string>)

  /** What the external source answers to the first summary request, to the search, and to the summary request for the first hit. */
  datatype Replies = Replies(primary: Summary, search: SearchReply, related: Summary)

  /** A request the handler sends to the external source. */
  datatype Request = SummaryOf(title: string) | SearchFor(query: string)

  /** The session's flash message and its type. */
  datatype Flash = Flash(message: string, kind: string)

  /** The state at the end of the try block's lookups (app.js:193-229): requests sent, the definition, and whether a fault was thrown. */
  datatype Resolution = Resolution(requests: seq<Request>, definition: string, threw: bool)

  /** `wikiResponse.data.extract` is truthy: present and not the empty string. */
  predicate HasExtract(reply: Summary)
  {
    reply.Page? && reply.extract.Some? && reply.extract.value != ""
  }

  /** The definition line 226-229 computes from the summary in force. */
  function DefinitionFrom(reply: Summary): string
  {
    if HasExtract(reply) then Truncate(reply.extract.value) else Placeholder
  }

  /**
   * The lookups of app.js:191-229 as a state machine: primary lookup, then
   * (only without an extract) a search for the normalised query, then (only
   * with at least one hit) a lookup of the first hit's title. A fault at any
   * request stops the chain with the placeholder definition.
   */
  function Resolve(query: string, net: Replies): Resolution
  {
    var normalized := Normalize(query);
    var first := [SummaryOf(normalized)];
    if net.primary.SummaryFault? then Resolution(first, Placeholder, true)
    else if HasExtract(net.primary) then Resolution(first, DefinitionFrom(net.primary), false)
    else
      var searched := first + [SearchFor(normalized)];
      match net.search
      case SearchFault => Resolution(searched, Placeholder, true)
      case Hits(titles) =>
        if |titles| == 0 then Resolution(searched, DefinitionFrom(net.primary), false)
        else
          var refetched := searched + [SummaryOf(titles[0])];
          if net.related.SummaryFault? then Resolution(refetched, Placeholder, true)
          else Resolution(refetched, DefinitionFrom(net.related), false)
  }

  /**
   * The handler. `now` stands for `Date.now()` in whichever insert runs;
   * `insertThrows` and `retryThrows` say whether the insert in the try
   * block (app.js:231) and the one in the catch block (app.js:236) reject.
   * When the second one rejects, the error leaves the handler and no
   * message is set.
   */
  method AddTopic(db: Database, userId: nat, query: string, title: string, net: Replies,
                  insertThrows: bool, retryThrows: bool, now: int)
    returns (requests: seq<Request>, flash: Option<Flash>)
    requires db.Valid()
    modifies db
    ensures db.Valid()
    ensures requests == Resolve(query, net).requests
    ensures var res := Resolve(query, net);
      var caught := res.threw || insertThrows;
      var saved := !caught || !retryThrows;
      && (saved ==>
          && db.searches == old(db.searches) + [Search(old(db.lastSearchId) + 1, userId, query, title, res.definition, now)]
          && db.lastSearchId == old(db.lastSearchId) + 1)
      && (!saved ==> db.searches == old(db.searches) && db.lastSearchId == old(db.lastSearchId))
      && flash == (if !caught then Some(Flash(AddedMessage, SuccessKind))
                   else if saved then Some(Flash(DegradedMessage, SuccessKind))
                   else None)
    ensures db.users == old(db.users) && db.lastUserId == old(db.lastUserId)
  {
    var definition := Placeholder;
    var threw := false;
    requests, flash := [], None;

    // try
    var normalized := Normalize(query);
    requests := requests + [SummaryOf(normalized)];
    var response := net.primary;
    if response.SummaryFault? {
      threw := true;
    } else {
      if !HasExtract(response) {
        requests := requests + [SearchFor(normalized)];
        match net.search {
          case SearchFault =>
            threw := true;
          case Hits(titles) =>
            if |titles| > 0 {
              requests := requests + [SummaryOf(titles[0])];
              response := net.related;
              if response.SummaryFault? {
                threw := true;
              }
            }
        }
      }
      if !threw {
        if HasExtract(response) {
          definition := Truncate(response.extract.value);
        }
        if insertThrows {
          threw := true;
        } else {
          var id := db.InsertSearch(userId, query, title, definition, now);
          flash := Some(Flash(AddedMessage, SuccessKind));
        }
      }
    }

    // catch
    if threw && !retryThrows {
      var id := db.InsertSearch(userId, query, title, definition, now);
      flash := Some(Flash(DegradedMessage, SuccessKind));
    }
  }

  // ---------------------------------------------------------------------
  // Properties of the resolution chain
  // ---------------------------------------------------------------------

  /** A primary lookup that throws skips the search: one request, the placeholder, the catch path. */
  lemma PrimaryFaultSkipsSearch(query: string, net: Replies)
    requires net.primary.SummaryFault?
    ensures Resolve(query, net) == Resolution([SummaryOf(Normalize(query))], Placeholder, true)
  {
  }

  /**
   * The search is sent exactly when the primary lookup returned without an
   * extract, and it is always for the normalised query.
   */
  lemma SearchOnlyWithoutExtract(query: string, net: Replies)
    ensures var res := Resolve(query, net);
      SearchFor(Normalize(query)) in res.requests <==> net.primary.Page? && !HasExtract(net.primary)
    ensures var res := Resolve(query, net);
      forall k :: 0 <= k < |res.requests| && res.requests[k].SearchFor? ==> res.requests[k].query == Normalize(query)
  {
  }

  /**
   * Only the first hit is fetched again: there are at most three requests;
   * a third one exists exactly when the search returned at least one title,
   * and it asks for the first one.
   */
  lemma OnlyFirstHitFetched(query: string, net: Replies)
    ensures var res := Resolve(query, net);
      && 1 <= |res.requests| <= 3
      && res.requests[0] == SummaryOf(Normalize(query))
      && (|res.requests| == 3 <==>
            net.primary.Page? && !HasExtract(net.primary) && net.search.Hits? && |net.search.titles| > 0)
      && (|res.requests| == 3 ==> res.requests[2] == SummaryOf(net.search.titles[0]))
  {
  }

  /** No extract and no search result is not a fault: the plain success path with the placeholder. */
  lemma NoHitsIsNotAFault(query: string, net: Replies)
    requires net.primary.Page? && !HasExtract(net.primary)
    requires net.search == Hits([])
    ensures Resolve(query, net) ==
      Resolution([SummaryOf(Normalize(query)), SearchFor(Normalize(query))], Placeholder, false)
  {
  }

  lemma TruncateIsNotPlaceholder(e: string)
    ensures Truncate(e) != Placeholder
  {
    TruncateCutsAtSecondBreak(e);
    assert Placeholder[|Placeholder| - 1] == 'd';
  }

  /**
   * The definition stays the placeholder unless a non-empty extract was
   * obtained without a fault; then it is that extract truncated. The
   * extract used is the primary one if it has one, otherwise the first
   * hit's.
   */
  lemma DefinitionFromExtractOnly(query: string, net: Replies)
    ensures var res := Resolve(query, net);
      var fromPrimary := HasExtract(net.primary);
      var fromRelated := net.primary.Page? && !fromPrimary && net.search.Hits? && |net.search.titles| > 0 && HasExtract(net.related);
      && (res.definition != Placeholder <==> fromPrimary || fromRelated)
      && (res.definition != Placeholder ==> !res.threw)
      && (fromPrimary ==> res.definition == Truncate(net.primary.extract.value))
      && (fromRelated ==> res.definition == Truncate(net.related.extract.value))
  {
    if HasExtract(net.primary) {
      TruncateIsNotPlaceholder(net.primary.extract.value);
    }
    if HasExtract(net.related) {
      TruncateIsNotPlaceholder(net.related.extract.value);
    }
  }
}

/** The in-memory cache of the fetched page: the content served at "/", the
    base64 fingerprint of that content, and the step that the end of each
    fetch performs on them. */
module Cache {
  import opened Bytes
  import Base64

  /** What "/" serves before any fetch has brought content: the octets of
      "<h1>Loading...</h1>". */
  const Placeholder: seq<byte> :=
    [60, 104, 49, 62, 76, 111, 97, 100, 105, 110, 103, 46, 46, 46, 60, 47, 104, 49, 62]

  /** The two module-level variables of the server, as one value. */
  datatype Entry = Entry(html: seq<byte>, hash: string)

  /** The state at start-up: the placeholder and an empty fingerprint. */
  const Initial: Entry := Entry(Placeholder, "")

  /** Content and fingerprint never disagree: either nothing was ever stored,
      or the fingerprint is that of the (non-empty) stored content. */
  predicate Consistent(e: Entry) {
    e == Initial || (e.html != [] && e.hash == Base64.Encode(e.html))
  }

  /** The change gate: the body is not empty and its fingerprint differs
      from the stored one. This is exactly when "Updated" is logged. */
  predicate ChangeDetected(e: Entry, body: seq<byte>) {
    body != [] && Base64.Encode(body) != e.hash
  }

  /** The completion of one fetch with the assembled `body`. */
  function Refresh(e: Entry, body: seq<byte>): (r: Entry)
    ensures body == [] ==> r == e
    ensures body != [] ==> r.hash == Base64.Encode(body)
  {
    if body == [] then e
    else
      var hash := Base64.Encode(body);
      if hash != e.hash then Entry(body, hash) else e
  }

  lemma PlaceholderText()
    ensures IsAsciiOf(Placeholder, "<h1>Loading...</h1>")
  {
  }

  /** A completion keeps content and fingerprint in agreement. */
  lemma RefreshConsistent(e: Entry, body: seq<byte>)
    requires Consistent(e)
    ensures Consistent(Refresh(e, body))
  {
  }

  /** After a completion with a non-empty body, that body is what is served,
      whether or not the gate let the update through. */
  lemma RefreshStoresBody(e: Entry, body: seq<byte>)
    requires Consistent(e) && body != []
    ensures Refresh(e, body).html == body
  {
    if Base64.Encode(body) == e.hash {
      assert e != Initial;
      Base64.EncodeInjective(body, e.html);
    }
  }

  /** The gate compares fingerprints, but means "the content changed": a
      non-empty body is an update exactly when it differs from the stored
      content, or when nothing was stored yet. */
  lemma ChangeDetectedIffContentChanged(e: Entry, body: seq<byte>)
    requires Consistent(e)
    ensures ChangeDetected(e, body) <==> body != [] && (body != e.html || e == Initial)
  {
    if body != [] && e != Initial && body != e.html {
      if Base64.Encode(body) == e.hash {
        Base64.EncodeInjective(body, e.html);
      }
    }
  }

  /** A second completion with the same body changes nothing and logs
      nothing. */
  lemma RefreshIdempotent(e: Entry, body: seq<byte>)
    ensures Refresh(Refresh(e, body), body) == Refresh(e, body)
    ensures !ChangeDetected(Refresh(e, body), body)
  {
  }

  /** The state after a sequence of completions, in order. */
  function Run(e: Entry, bodies: seq<seq<byte>>): Entry
    decreases |bodies|
  {
    if bodies == [] then e else Run(Refresh(e, bodies[0]), bodies[1..])
  }

  /** How many "Updated" lines a sequence of completions logs. */
  function Updates(e: Entry, bodies: seq<seq<byte>>): nat
    decreases |bodies|
  {
    if bodies == [] then 0
    else (if ChangeDetected(e, bodies[0]) then 1 else 0) + Updates(Refresh(e, bodies[0]), bodies[1..])
  }

  /** The last non-empty body, or `fallback` when there is none. */
  function Latest(bodies: seq<seq<byte>>, fallback: seq<byte>): seq<byte>
    decreases |bodies|
  {
    if bodies == [] then fallback
    else Latest(bodies[1..], if bodies[0] == [] then fallback else bodies[0])
  }

  /** After any sequence of completions the served content is the last
      non-empty body, or what was served before when every body was empty. */
  lemma {:induction false} RunServesLatest(e: Entry, bodies: seq<seq<byte>>)
    requires Consistent(e)
    ensures Consistent(Run(e, bodies))
    ensures Run(e, bodies).html == Latest(bodies, e.html)
    decreases |bodies|
  {
    if bodies != [] {
      RefreshConsistent(e, bodies[0]);
      if bodies[0] != [] {
        RefreshStoresBody(e, bodies[0]);
      }
      RunServesLatest(Refresh(e, bodies[0]), bodies[1..]);
    }
  }

  /** Until a non-empty body arrives the state stays the initial one and
      nothing is logged. */
  lemma {:induction false} EmptyBodiesKeepInitial(bodies: seq<seq<byte>>)
    requires forall i :: 0 <= i < |bodies| ==> bodies[i] == []
    ensures Run(Initial, bodies) == Initial
    ensures Updates(Initial, bodies) == 0
    decreases |bodies|
  {
    if bodies != [] {
      EmptyBodiesKeepInitial(bodies[1..]);
    }
  }

  /** `k` completions in a row with the same body. */
  function Repeat(body: seq<byte>, k: nat): seq<seq<byte>>
    decreases k
  {
    if k == 0 then [] else [body] + Repeat(body, k - 1)
  }

  /** Fetching the same body again and again logs at most one update: the
      first completion, and only when its gate lets it through. */
  lemma {:induction false} RepeatUpdatesAtMostOnce(e: Entry, body: seq<byte>, k: nat)
    ensures Updates(e, Repeat(body, k)) == if k > 0 && ChangeDetected(e, body) then 1 else 0
    decreases k
  {
    if k > 0 {
      var bodies := Repeat(body, k);
      assert bodies[0] == body && bodies[1..] == Repeat(body, k - 1);
      RepeatAfterFirstIsSilent(Refresh(e, body), body, k - 1);
    }
  }

  lemma {:induction false} RepeatAfterFirstIsSilent(e: Entry, body: seq<byte>, k: nat)
    requires body == [] || e.hash == Base64.Encode(body)
    ensures Updates(e, Repeat(body, k)) == 0 && Run(e, Repeat(body, k)) == e
    decreases k
  {
    if k > 0 {
      var bodies := Repeat(body, k);
      assert bodies[0] == body && bodies[1..] == Repeat(body, k - 1);
      RepeatAfterFirstIsSilent(e, body, k - 1);
    }
  }

  /** The cache as the server holds it: two variables that only the end of a
      fetch reassigns, and a count of the "Updated" lines logged so far. */
  class GistCache {
    var cachedHTML: seq<byte>
    var lastHash: string
    ghost var updates: nat

    ghost function Current(): Entry
      reads this
    {
      Entry(cachedHTML, lastHash)
    }

    /** Content and fingerprint agree, and nothing was logged exactly while
        the fingerprint is still the initial empty one. */
    ghost predicate Valid()
      reads this
    {
      Consistent(Current()) && (updates == 0 <==> lastHash == "")
    }

    constructor ()
      ensures Valid()
      ensures Current() == Initial && updates == 0
    {
      cachedHTML := Placeholder;
      lastHash := "";
      updates := 0;
    }

    /** The end of a fetch whose body is `data`. */
    method OnFetchEnd(data: seq<byte>)
      requires Valid()
      modifies this
      ensures Valid()
      ensures Current() == Refresh(old(Current()), data)
      ensures updates == old(updates) + (if ChangeDetected(old(Current()), data) then 1 else 0)
      ensures data != [] ==> cachedHTML == data && lastHash == Base64.Encode(data)
    {
      if data == [] {
        return;
      }
      var hash := Base64.Encode(data);
      if hash != lastHash {
        cachedHTML := data;
        lastHash := hash;
        updates := updates + 1;
      }
      RefreshStoresBody(old(Current()), data);
    }

    /** A transport error: only logged, the cache is left as it was. */
    method OnFetchError(message: string)
      requires Valid()
      ensures Valid()
      ensures Current() == old(Current()) && updates == old(updates)
    {
    }

    /** The body of a response to "/": the stored content, never empty. */
    method Serve() returns (body: seq<byte>)
      requires Valid()
      ensures body == cachedHTML
      ensures body != []
    {
      body := cachedHTML;
    }
  }

  /** A client run of the cache: placeholder before the first fetch, one
      update for the same body fetched twice, nothing for an empty body or
      an error. */
  method Scenarios() {
    var cache := new GistCache();
    var first := cache.Serve();
    var second := cache.Serve();
    assert first == second == Placeholder;

    var v1: seq<byte> := [60, 112, 62, 118, 49, 60, 47, 112, 62];
    assert IsAsciiOf(v1, "<p>v1</p>");
    cache.OnFetchEnd(v1);
    var served := cache.Serve();
    assert served == v1 && cache.updates == 1;

    cache.OnFetchEnd(v1);
    served := cache.Serve();
    assert served == v1 && cache.updates == 1;

    cache.OnFetchEnd([]);
    cache.OnFetchError("connection reset");
    served := cache.Serve();
    assert served == v1 && cache.updates == 1;
  }
}

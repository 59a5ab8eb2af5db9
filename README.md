# Gist page cache: a Dafny model

The server in `app.js` fetches one page from a fixed URL every minute, keeps
it in memory and serves it at `/`. Its state is two module-level variables:
`cachedHTML`, which starts as the placeholder `<h1>Loading...</h1>`, and
`lastHash`, which starts empty. When a fetch ends, the server does three
things. An empty body changes nothing. Otherwise the body's base64 text is its
fingerprint. Only when that fingerprint differs from `lastHash` are both
variables replaced and one "Updated" line logged.

This project models that refresh step and proves what it promises.

Throughout, a body is the octet sequence `Buffer.from(data)` that line 27
encodes. That is the UTF-8 encoding of the text the chunks were decoded to,
not the octets received from the network. Decoding replaces every invalid
UTF-8 sequence with U+FFFD, so two responses that differ only in such
sequences are the same body here and have one fingerprint. "Content" below
always means this re-encoded text.

- `base64.dfy`, module `Bytes`: the octet type, and what it means for octets
  to be the ASCII text of a string.
- `base64.dfy`, module `Base64`: the base64 encoding of section 4 of RFC 4648,
  with the standard alphabet and `=` padding. This is what Node's
  `Buffer.toString("base64")` produces, for bodies below Node's string-length
  limit, and it is the fingerprint. A strict
  decoder is added as its partner. Decoding undoes encoding and encoding
  undoes decoding, so the fingerprint is injective.
- `cache.dfy`, module `Cache`:
  - the pair of variables as a value `Entry`;
  - the refresh step as a function `Refresh`;
  - the invariant `Consistent`: either the start-up pair, or a fingerprint
    that is the base64 of the non-empty stored content;
  - lemmas about one completion and about any sequence of completions;
  - a class `GistCache` with the two variables as fields, a ghost counter of
    "Updated" lines, and methods for the end of a fetch, a fetch error and a
    request to `/`;
  - a client method `Scenarios` that shows what a caller can prove: the
    placeholder before any fetch, one update for the same body fetched twice,
    and nothing for an empty body or an error.

The gate compares fingerprints, not contents. `ChangeDetectedIffContentChanged`
shows that, given the invariant, this is the same as "the body differs from
what is stored, or nothing was stored yet". The second case matters: a first
body byte-identical to the placeholder is still an update, because the start-up
fingerprint is empty and the fingerprint of a non-empty body never is.

## Model

| member | source | states |
|---|---|---|
| Base64.Encode | app.js:27 | the fingerprint has four characters per started group of three octets, and is empty exactly when the body is |
| Base64.DecodeEncode | app.js:27 | decoding the fingerprint of any body gives back that body |
| Base64.EncodeDecode | app.js:27 | a text that the strict decoder accepts is exactly the fingerprint of what it decodes to |
| Base64.EncodeInjective | app.js:29 | two bodies (re-encoded texts) with equal fingerprints are equal, so the gate `hash !== lastHash` loses no change of the re-encoded text |
| Cache.PlaceholderText | app.js:15 | the start-up content is the octets of `<h1>Loading...</h1>` |
| Cache.Refresh | app.js:24-34 | a completion with an empty body leaves the entry unchanged; after a non-empty one, the stored fingerprint is that body's base64, whether or not the gate fired |
| Cache.RefreshConsistent | app.js:27-31 | a completion keeps content and fingerprint in agreement |
| Cache.RefreshStoresBody | app.js:29-31 | from a consistent entry, after a completion with a non-empty body, the stored content is that body |
| Cache.ChangeDetectedIffContentChanged | app.js:29 | from a consistent entry, the gate opens exactly when the body is non-empty and differs from the stored content, or nothing was stored yet (both directions) |
| Cache.RefreshIdempotent | app.js:29-33 | a second completion with the same body changes nothing and logs nothing |
| Cache.RunServesLatest | app.js:24-34 | after any sequence of completions, the entry is still consistent and the served content is the last non-empty body, or the previous content if every body was empty |
| Cache.EmptyBodiesKeepInitial | app.js:15-25 | while every body is empty, the state stays the start-up pair and nothing is logged |
| Cache.RepeatUpdatesAtMostOnce | app.js:29-33 | the same body fetched k times logs exactly one update if the first completion's gate opens, and none otherwise |
| Cache.GistCache.constructor | app.js:15-16 | the cache starts as the placeholder with an empty fingerprint, with nothing logged, and satisfies the invariant |
| Cache.GistCache.OnFetchEnd | app.js:24-34 | the new state is `Refresh` of the old one; the update count grows by one exactly when the gate opens; a non-empty body becomes the stored content and its base64 the stored fingerprint; the invariant is kept |
| Cache.GistCache.OnFetchError | app.js:35-37 | a transport error changes neither variable nor the update count |
| Cache.GistCache.Serve | app.js:52 | `/` is answered with exactly the stored content, which is never empty, and nothing changes |

`GistCache.Valid` is the class invariant. It is `Consistent` on the two fields,
plus "no update has been logged exactly while `lastHash` is still empty".

## Left out

- Network I/O (app.js:20-23): `https.get`, streaming and the `data += chunk`
  accumulation. The model takes the assembled body as a sequence of octets.
- Text decoding (app.js:23, 27): `data += chunk` decodes every chunk as UTF-8
  and `Buffer.from(data)` re-encodes the whole string. The model takes the
  re-encoded octets as its input and does not model the decoding. Decoding
  turns every invalid UTF-8 sequence into U+FFFD, including a multi-octet
  character split across two chunks. So the octets received `[0xFF]` and then
  `[0xFE]` are both the body `[0xEF, 0xBF, 0xBD]`, with fingerprint `77+9`, and
  the source logs no update for the second.
- Cache.ChangeDetectedIffContentChanged, Cache.RunServesLatest,
  Base64.EncodeInjective: "differs from the stored content" is about the
  re-encoded text, not about the octets received. Two responses that differ
  only in invalid UTF-8 are not told apart, as the source does not tell them
  apart either.
- Base64.Encode, Cache.Refresh, Cache.GistCache.OnFetchEnd: no bound on the
  body's size. Node's `toString("base64")` at app.js:27 throws
  `ERR_STRING_TOO_LONG` when the base64 text would exceed 0x1fffffe8
  characters, that is, for a body above about 402 MB. The exception escapes the
  `end` callback and ends the process. The model instead stores that body and
  counts an update.
- Scheduling (app.js:41, 44): the start-up call and the 60-second timer are
  left out. So are overlapping fetches, which the event loop allows. The model
  applies completions one at a time, in the order they finish (`Run`).
- Express glue (app.js:47-63): routing, the `Content-Type` and
  `Cache-Control` headers, `/health` and `app.listen` are left out. Only the
  read of `cachedHTML` at line 52 is modelled, as `Serve`.
- The keepalive self-ping (app.js:66-73): it is network I/O and does not touch
  the cache.
- Logging (app.js:32, 36): `console.log`, `console.error` and the timestamp
  are left out. The "Updated" line is the ghost counter `updates`. The error
  message is a parameter of `OnFetchError` that nothing reads.

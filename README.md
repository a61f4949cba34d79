# image-blocker, modelled in Dafny

A model of the decision and bookkeeping core of the Koishi plugin
`image-blocker` (`src/index.ts`). Guild operators register "banned" images
with `.add`, list them with `.list` and remove them by sequence number with
`.del`. On every message the plugin hashes the attached images, compares the
hashes with the rules registered for the guild by Levenshtein distance, and
deletes the message at the first pair whose distance is at most the
configured `similarity`.

The model consists of:

- `ContentId` (`content_id.dfy`): the content id `filename.split(".")[0]`.
- `Levenshtein` (`levenshtein.dfy`): the edit distance computed by the `leven`
  library, as a recursive function, and the inclusive threshold test.
- `JsParseInt` (`js_parse_int.dfy`): JavaScript's `parseInt` applied to the
  reply of `.del`, and the decimal rendering that `.list` prints.
- `Tables` (`tables.dfy`): the rows of `imageBlockerHash` and
  `imageBlockerGuild`, their keys, the `max(pic)` aggregate and the
  `limit 5 / offset (page-1)*5` page.
- `Messages` (`messages.dfy`): message elements and the image filter.
- `Matching` (`matching.dfy`): the rule-major, candidate-minor search for the
  first pair within the threshold, as a specification function and as the
  nested loop of the handler.
- `Blocker` (`blocker.dfy`): the plugin instance (`ImageBlocker`) holding
  both tables, the hash cache and `similarity`, with `Add`, `Del`, `List` and
  `OnMessage`; the pure function `Decide` that states what the handler does
  with a message, and the lemmas about it.
- `Seqs` and `Optional`: a filter over sequences, key uniqueness and an
  option type.

A table is a sequence of rows in the order the database returns them. The
cache is a map from key to hash string. Downloading an image and its
perceptual hash are the two fields of `Services`: deterministic functions
given as parameters.

Behaviours of the code that a reader might not expect, modelled as written:

- The test at `src/index.ts:207-211` reads like an exact-id short-circuit,
  but it looks for an id string among row objects, so it never holds (and if
  it did hold, the handler would return without deleting).
  `RegisteredAsWritten` models it and proves that it is always false.
- `.add` refuses an id that has a hash row in any guild, not only a repeated
  (guild, id) pair (`src/index.ts:132-138`).
- `.del` removes the hash row from the whole table but only the current
  guild's edge to it (`src/index.ts:184-192`). Edges of other guilds stay.
  They match nothing until the same id is added again, in any guild; from
  then on they match again (`ReAddRevivesStaleEdge`).
- The handler reads the cache under the element's `file_unique` attribute
  (`src/index.ts:214`) and writes it under the filename stem
  (`src/index.ts:223-226`).
- When the hash row of an id was removed by `.del` in another guild while
  this guild's edge stayed, adding the id again in this guild inserts the
  hash row and then fails on the edge, whose primary key already exists
  (`DuplicateEdgeThrows`).

## Model

| member | source | states |
|---|---|---|
| `ContentId.FileUnique` | src/index.ts:133 | the id is a prefix of the filename, contains no dot, and is followed by a dot or the end of the name |
| `ContentId.WholeNameIffNoDot` | src/index.ts:225 | the id is the whole filename exactly when the filename has no dot |
| `ContentId.ExtensionIgnored` | src/index.ts:155 | names that share a dot-free stem give that stem as their id, whatever follows the first dot |
| `Levenshtein.Distance` | src/index.ts:239 | the edit distance is at most the longer length and at least the difference of the lengths |
| `Levenshtein.DistanceZeroIffEqual` | src/index.ts:239 | distance 0 holds exactly for equal hashes |
| `Levenshtein.IdenticalIsWithin` | src/index.ts:18-22 | with the threshold's minimum of 0, an identical hash is always within it |
| `Levenshtein.DistanceSymmetric` | src/index.ts:239 | the distance does not depend on which argument is the rule |
| `Levenshtein.DistanceAtMostHamming` | src/index.ts:239 | for equal-length hashes the distance is at most the number of differing positions |
| `Levenshtein.DistanceOfDisjoint` | src/index.ts:239 | hashes with no common character are as far apart as the longer one is long |
| `Levenshtein.ThresholdExamples` | src/index.ts:240 | with threshold 2, `abc133` is within 1 of `abc123` and `xyz999` is 6 away and not within |
| `JsParseInt.ParseMagnitude` | src/index.ts:175 | a parsed magnitude means the text holds at least one digit |
| `JsParseInt.Decimal` | src/index.ts:109 | the printed number is a non-empty run of decimal digits without a leading zero |
| `JsParseInt.DecimalRoundTrip` | src/index.ts:175 | parsing the printed number of `n`, followed by anything that is not a letter or digit, gives `n` |
| `JsParseInt.ParseInt` | src/index.ts:175 | an empty reply parses to NaN; the rest of its behaviour is stated by `DecimalRoundTrip`, `NoDigitIsNaN` and `LeadingSpaceIgnored` |
| `JsParseInt.NoDigitIsNaN` | src/index.ts:175 | a reply without a single decimal digit (`abc`, `delete`) parses to NaN |
| `JsParseInt.LeadingSpaceIgnored` | src/index.ts:175 | white space before the number does not change the parsed value |
| `Tables.PicIs` | src/index.ts:177-179 | a row is selected exactly when the parsed number equals its `pic`; NaN selects no row |
| `Tables.MaxPic` | src/index.ts:144-147 | the aggregate is at least every `pic`, is one of them when the table is non-empty, and is 0 on an empty table |
| `Tables.Page` | src/index.ts:91-96 | a page holds at most 5 edges, exactly those from offset `(page-1)*5` on |
| `Tables.PageOfIndex` | src/index.ts:93-95 | edge `i` of the guild's listing is item `i % 5` of page `i / 5 + 1` |
| `Tables.OnlyOnItsPage` | src/index.ts:93-95 | since edges are unique, an edge is shown on no page but its own |
| `Messages.ImagesOf` | src/index.ts:198-200 | the images are the elements of type `image` or `img`; there are none exactly when no element has such a type |
| `Messages.ImagesOfAppend` | src/index.ts:198-200 | the images keep the order in which the message carries them: an element appended to the message appends itself to the images exactly when it is an image |
| `Levenshtein.Within` | src/index.ts:240 | the inclusive test `leven(rule, candidate) <= similarity`; what it implies is stated by `WithinBounds`, `IdenticalIsWithin` and `ThresholdExamples` |
| `Levenshtein.WithinBounds` | src/index.ts:239-240 | a negative threshold admits nothing, hashes whose lengths differ by more than the threshold are never within it, and hashes no longer than the threshold always are |
| `Matching.FirstCandidate` | src/index.ts:238-245 | the first candidate within the threshold of a rule, or none when no candidate is |
| `Matching.FirstMatch` | src/index.ts:237-246 | none exactly when no (rule, candidate) pair is within the threshold; otherwise a pair within it, with every earlier rule and every earlier candidate of its rule not within it |
| `Matching.FindFirstMatch` | src/index.ts:237-246 | the nested loop returns the rule-major first pair within the threshold |
| `Matching.MatchIffSomePairWithin` | src/index.ts:237-246 | a match is found exactly when some pair is within the threshold |
| `Matching.IdenticalPairMatches` | src/index.ts:237-246 | a candidate equal to a rule always stops the loop, at that rule or earlier |
| `Blocker.CacheGet` | src/index.ts:214-215 | an entry counts as a hit exactly when it exists and is not the empty string |
| `Blocker.Fingerprint` | src/index.ts:213-232 | a non-empty cache entry under the image's `file_unique` is used as it is; otherwise the hash of the downloaded image is used |
| `Blocker.Fingerprints` | src/index.ts:212-233 | each image's hash is the cached value for its `file_unique` or, on a miss, the hash of its downloaded bytes |
| `Blocker.CacheAfter` | src/index.ts:223-228 | after the first `n` images of a message the cache holds its old keys plus the filename stem of every missed image among them; keys no miss wrote keep their values |
| `Blocker.CacheAfterHoldsLastMiss` | src/index.ts:223-228 | under the stem of a missed image that no later miss shares, the cache holds that image's freshly computed hash |
| `Blocker.MismatchedKeyMissesAgain` | src/index.ts:214-225 | an image whose `file_unique` differs from its filename stem misses the cache again on its next appearance |
| `Blocker.MatchingKeyHitsNext` | src/index.ts:214-225 | when the two keys agree, a miss fills the entry that the next lookup hits |
| `Blocker.GuildEdgesOf` | src/index.ts:204-206 | the guild's edges are exactly the edges naming that guild |
| `Blocker.RulesFor` | src/index.ts:234-236 | the candidate rules are exactly the hash rows whose id has an edge for the guild |
| `Blocker.RegisteredAsWritten` | src/index.ts:207-211 | the "already registered" test never holds |
| `Blocker.Decide` | src/index.ts:196-247 | no images exactly when the message has none; never skipped as registered; a deletion names a row registered for this guild and an image whose hash is within the threshold of it, with that distance |
| `Blocker.DecideIsFirstMatch` | src/index.ts:234-246 | the decision is `Kept` when the rule-major search over the guild's rule hashes and the image hashes finds no pair, and otherwise deletes with the rule and candidate of the pair it finds |
| `Blocker.DeletedIffGuildRuleWithin` | src/index.ts:237-246 | a message with images is deleted exactly when some rule of the guild is within the threshold of some image's hash |
| `Blocker.IdenticalFingerprintDeleted` | src/index.ts:237-246 | an image whose hash equals a rule of the guild always gets the message deleted |
| `Blocker.OtherGuildEdgeIrrelevant` | src/index.ts:204-206 | adding an edge for another guild does not change the decision for this guild |
| `Blocker.DeletedAtFirstPair` | src/index.ts:237-244 | the deleting pair is the first in rule-major, candidate-minor order |
| `Blocker.AddedImageIsBlocked` | src/index.ts:153-161 | after the rows that a successful add inserts, an image with the added hash gets the message deleted in that guild |
| `Blocker.RemovedRowNeverMatches` | src/index.ts:184-186 | right after a content id's hash row is removed, no message in any guild is deleted because of that id, whatever edges remain; this lasts until the id is added again |
| `Blocker.ReAddRevivesStaleEdge` | src/index.ts:132-192 | after a `.del` in another guild, a guild whose edge stayed has its messages deleted again once any guild adds the same id again |
| `Blocker.ListedNumberSelectsRow` | src/index.ts:175-183 | the number the list prints for a row, sent back to the delete command, selects that row alone |
| `Blocker.ImageBlocker.constructor` | src/index.ts:61-77 | a fresh installation has empty tables and cache and satisfies both primary keys |
| `Blocker.ImageBlocker.List` | src/index.ts:90-114 | no image exactly when the page of the guild's edges is empty; otherwise the rows shown are exactly the hash rows named by the page's edges |
| `Blocker.ImageBlocker.Add` | src/index.ts:120-163 | an empty reply throws, a non-image is refused, an id present in any guild is refused; all three change nothing; an image reply whose id has no hash row is always stored: otherwise one row with `pic` = max + 1 (greater than every existing `pic`) and the downloaded image's hash is appended, and one edge for the guild unless it already exists, in which case the add throws after the row was stored; the keys stay unique |
| `Blocker.ImageBlocker.Del` | src/index.ts:169-194 | an empty reply throws, a non-text reply is refused, a number matching no row reports non-exist; all three change nothing; a text reply whose number matches a row always deletes: otherwise that id's hash row is removed from the whole table, only this guild's edge to it is removed, and other guilds' edges remain |
| `Blocker.ImageBlocker.HashImages` | src/index.ts:212-233 | the hashes and the new cache are those of the fingerprint and cache-update functions |
| `Blocker.ImageBlocker.OnMessage` | src/index.ts:196-247 | the outcome is `Decide` on the tables and the cache at arrival; the cache is untouched for a message without images and otherwise updated as `CacheAfter` says |

## Left out

- Downloading images (`ctx.http.get`), the PNG conversion with `sharp`, the
  files written under `data/` and `temp/`, and the directory creation: these
  are I/O. The model keeps only their effect, the fingerprint given by
  `Services`.
- The perceptual hash `imghash.hash`: a foreign library with pixel and
  floating-point arithmetic. It is an arbitrary deterministic function.
- The cache's expiry after `cache_time * 60 * 60 * 1000` milliseconds: it
  depends on the wall clock. The cache is a plain map, with the get/set key
  mismatch kept.
- `Promise.all` hashing the images concurrently: all cache reads see the cache
  as it was when the message arrived, as they do in the code, but the cache
  writes are applied in element order. In the code their order depends on
  which download finishes first.
- The race between two concurrent `.add` commands reading the same `max(pic)`:
  commands run one after another.
- Koishi command registration, prompts, `session.send`, i18n texts, the
  `Schema` metadata, the logger and `console.log`, and the rebinding
  `ctx = ctx.platform("onebot").guild()`: framework glue. The operator's
  reply to a prompt is a parameter. `deleteMessage` is the `Deleted` outcome.
- Errors thrown by the database or the network in the middle of a command or
  of the handler, other than the two modelled (an empty reply and a refused
  duplicate edge).
- Image and text elements lacking the attributes the code reads (`filename`,
  `file_unique`, `src`, `content`): each is a string field of `Element`.
- The order in which the database returns rows: the model uses insertion
  order.
- `Tables.MaxPic`: on an empty table the model takes the maximum to be 0, as
  SQL drivers do (`NULL + 1` is 1 in JavaScript); other drivers may behave
  differently.
- `Blocker.ImageBlocker.List`: requires `page >= 1`. For smaller or
  fractional pages the offset is negative or fractional, and its meaning is
  up to the database driver.
- `JsParseInt.ParseInt`: no precision loss for numbers beyond 2^53; the exact
  integer is kept.
- `Levenshtein.Distance` compares Unicode scalar values where `leven` compares
  UTF-16 code units. The two agree on ASCII text, and the hashes are assumed
  to be ASCII (imghash returns hexadecimal strings).
- `similarity` is an integer from 0 to 14. The settings slider could also give
  a fraction, which behaves like its integer part because distances are
  integers.

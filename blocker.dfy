/** The plugin instance built by `apply`: the two tables, the hash cache and
    the `similarity` setting, with the `.add`, `.del` and `.list` commands and
    the `message` handler. */
module Blocker {
  import opened Optional
  import opened Seqs
  import opened ContentId
  import opened Levenshtein
  import opened JsParseInt
  import opened Tables
  import opened Messages
  import opened Matching

  type Bytes = seq<bv8>

  /** What the plugin takes from outside: the bytes behind an image URL
      (`ctx.http.get`) and the perceptual hash of those bytes once converted
      to PNG (`sharp(...).png()` then `imghash.hash`). Both are deterministic
      functions here: the same bytes always give the same hash. */
  datatype Services = Services(download: string -> Bytes, imghash: Bytes -> string)

  /** A freshly computed fingerprint for an image element. */
  function HashOf(img: Element, services: Services): string
  {
    services.imghash(services.download(img.src))
  }

  // ----- the hash cache -----

  /** `ctx.cache.get("image-blocker", key)` followed by `if (!hash)`: an absent
      entry and an empty string are both misses. */
  function CacheGet(cache: map<string, string>, key: string): (h: Option<string>)
    ensures h.Some? <==> key in cache && cache[key] != ""
  {
    if key in cache && cache[key] != "" then Some(cache[key]) else None
  }

  /** The cache is read under the image's `file_unique` attribute. */
  predicate Misses(cache: map<string, string>, img: Element)
  {
    CacheGet(cache, img.fileUnique).None?
  }

  /** The hash the handler compares for one image: the cached one, or on a
      miss the hash of the downloaded image. A miss never stands for "not
      similar". */
  function Fingerprint(cache: map<string, string>, img: Element, services: Services): (h: string)
    ensures img.fileUnique in cache && cache[img.fileUnique] != "" ==> h == cache[img.fileUnique]
    ensures img.fileUnique !in cache || cache[img.fileUnique] == "" ==> h == HashOf(img, services)
  {
    match CacheGet(cache, img.fileUnique)
    case Some(h) => h
    case None => HashOf(img, services)
  }

  /** `hashes_to_check`. Every `cache.get` of `Promise.all` is issued before any
      `cache.set` of the same message, so all lookups see the cache as it was
      when the message arrived. */
  function Fingerprints(cache: map<string, string>, images: seq<Element>, services: Services): (fps: seq<string>)
    ensures |fps| == |images|
    ensures forall k :: 0 <= k < |images| ==> fps[k] == Fingerprint(cache, images[k], services)
    decreases |images|
  {
    if images == [] then []
    else Fingerprints(cache, images[..|images| - 1], services) + [Fingerprint(cache, images[|images| - 1], services)]
  }

  /** The cache after the misses among the first `n` images of a message have
      been written back. A miss is written under `filename.split(".")[0]`,
      not under the `file_unique` it was looked up by. */
  function CacheAfter(snapshot: map<string, string>, images: seq<Element>, n: nat, services: Services): (c: map<string, string>)
    requires n <= |images|
    ensures forall k :: k in c <==> k in snapshot || exists i :: 0 <= i < n && Misses(snapshot, images[i]) && k == FileUnique(images[i].filename)
    ensures forall k :: k in snapshot && (forall i :: 0 <= i < n && Misses(snapshot, images[i]) ==> k != FileUnique(images[i].filename)) ==> c[k] == snapshot[k]
  {
    if n == 0 then snapshot
    else
      var prev := CacheAfter(snapshot, images, n - 1, services);
      var img := images[n - 1];
      if Misses(snapshot, img) then prev[FileUnique(img.filename) := HashOf(img, services)] else prev
  }

  /** No miss after `images[i]` and before `images[n]` has the same filename stem. */
  predicate LastMissWithStem(snapshot: map<string, string>, images: seq<Element>, n: nat, i: nat)
    requires i < n <= |images|
  {
    forall j :: i < j < n && Misses(snapshot, images[j]) ==> FileUnique(images[j].filename) != FileUnique(images[i].filename)
  }

  /** The hash written back under a stem is the one downloaded for the last
      miss with that stem: each write replaces the one before it. */
  lemma {:induction false} CacheAfterHoldsLastMiss(snapshot: map<string, string>, images: seq<Element>, n: nat, services: Services, i: nat)
    requires i < n <= |images| && Misses(snapshot, images[i]) && LastMissWithStem(snapshot, images, n, i)
    ensures FileUnique(images[i].filename) in CacheAfter(snapshot, images, n, services)
    ensures CacheAfter(snapshot, images, n, services)[FileUnique(images[i].filename)] == HashOf(images[i], services)
  {
    var m: nat := n - 1;
    if i == m {
      ImageWrites(snapshot, images, m, n, services);
    } else {
      CacheAfterHoldsLastMiss(snapshot, images, m, services, i);
      ImageKeeps(snapshot, images, m, n, services, FileUnique(images[i].filename));
    }
  }

  /** A miss of image `m` writes its hash under its stem. */
  lemma ImageWrites(snapshot: map<string, string>, images: seq<Element>, m: nat, n: nat, services: Services)
    requires n == m + 1 <= |images| && Misses(snapshot, images[m])
    ensures FileUnique(images[m].filename) in CacheAfter(snapshot, images, n, services)
    ensures CacheAfter(snapshot, images, n, services)[FileUnique(images[m].filename)] == HashOf(images[m], services)
  {
  }

  /** Image `m` leaves every other entry as the images before it left it. */
  lemma ImageKeeps(snapshot: map<string, string>, images: seq<Element>, m: nat, n: nat, services: Services, key: string)
    requires n == m + 1 <= |images|
    requires Misses(snapshot, images[m]) ==> FileUnique(images[m].filename) != key
    requires key in CacheAfter(snapshot, images, m, services)
    ensures key in CacheAfter(snapshot, images, n, services)
    ensures CacheAfter(snapshot, images, n, services)[key] == CacheAfter(snapshot, images, m, services)[key]
  {
  }

  /** One more image: its fingerprint is appended, and on a miss its hash is
      written under its filename stem. */
  lemma StepOneImage(snapshot: map<string, string>, images: seq<Element>, i: nat, services: Services)
    requires i < |images|
    ensures Fingerprints(snapshot, images[..i + 1], services)
            == Fingerprints(snapshot, images[..i], services) + [Fingerprint(snapshot, images[i], services)]
    ensures CacheAfter(snapshot, images, i + 1, services)
            == if Misses(snapshot, images[i])
               then CacheAfter(snapshot, images, i, services)[FileUnique(images[i].filename) := HashOf(images[i], services)]
               else CacheAfter(snapshot, images, i, services)
  {
    assert images[..i + 1][..i] == images[..i];
  }

  /** An image whose `file_unique` differs from its filename stem is written
      to the cache under the stem, so the next message with it misses again
      and downloads and hashes it again. */
  lemma MismatchedKeyMissesAgain(snapshot: map<string, string>, img: Element, services: Services)
    requires Misses(snapshot, img)
    requires img.fileUnique != FileUnique(img.filename)
    ensures Misses(CacheAfter(snapshot, [img], 1, services), img)
  {
    assert CacheAfter(snapshot, [img], 1, services) == snapshot[FileUnique(img.filename) := HashOf(img, services)];
  }

  /** When the two keys agree, a miss fills the entry the next message reads. */
  lemma MatchingKeyHitsNext(snapshot: map<string, string>, img: Element, services: Services)
    requires Misses(snapshot, img)
    requires img.fileUnique == FileUnique(img.filename)
    requires HashOf(img, services) != ""
    ensures CacheGet(CacheAfter(snapshot, [img], 1, services), img.fileUnique) == Some(HashOf(img, services))
  {
    assert CacheAfter(snapshot, [img], 1, services) == snapshot[FileUnique(img.filename) := HashOf(img, services)];
  }

  // ----- the decision of the message handler -----

  /** `fq_guild`: the edges of one guild. */
  function GuildEdgesOf(edges: seq<GuildEdge>, guild: string): (mine: seq<GuildEdge>)
    ensures forall e :: e in mine <==> e in edges && e.guild == guild
  {
    Filter(edges, InGuild(guild))
  }

  /** `fq_hashes`: the hash rows whose content id has an edge for the guild. */
  function RulesFor(rows: seq<HashRow>, edges: seq<GuildEdge>, guild: string): (rules: seq<HashRow>)
    ensures forall r :: r in rules <==> r in rows && GuildEdge(guild, r.fileUnique) in edges
  {
    var mine := GuildEdgesOf(edges, guild);
    var rules := Filter(rows, IdIn(IdsOf(mine)));
    assert forall r :: r in rows && GuildEdge(guild, r.fileUnique) in edges ==> GuildEdge(guild, r.fileUnique) in mine;
    rules
  }

  function Hashes(rules: seq<HashRow>): (hs: seq<string>)
    ensures |hs| == |rules| && forall i :: 0 <= i < |rules| ==> hs[i] == rules[i].hash
  {
    seq(|rules|, i requires 0 <= i < |rules| => rules[i].hash)
  }

  /** A JavaScript value as `Array.prototype.includes` sees it: a string, or a
      row object. */
  datatype JsValue = JsString(s: string) | JsObject(row: GuildEdge)

  /** `fq_guild` is an array of row objects. */
  function RowObjects(edges: seq<GuildEdge>): seq<JsValue>
  {
    seq(|edges|, i requires 0 <= i < |edges| => JsObject(edges[i]))
  }

  /** `includes` compares with SameValueZero: a string is found only as an
      equal string, an object only as itself. */
  function Includes(values: seq<JsValue>, v: JsValue): bool
  {
    v in values
  }

  /** The "already registered" test as written: it looks for the id string
      among row objects, so it never holds. */
  function RegisteredAsWritten(mine: seq<GuildEdge>, images: seq<Element>): (registered: bool)
    ensures !registered
  {
    exists k :: 0 <= k < |images| && Includes(RowObjects(mine), JsString(FileUnique(images[k].filename)))
  }

  /** What the handler does with one message. `Deleted` is the single
      `deleteMessage` call, with the rule row, the index of the image and the
      distance it logs. `SkippedAsRegistered` is the return of the
      "already registered" test, which never happens. */
  datatype Outcome = NoImages | SkippedAsRegistered | Kept | Deleted(rule: HashRow, candidate: nat, distance: nat)

  function Decide(rows: seq<HashRow>, edges: seq<GuildEdge>, cache: map<string, string>, guild: string,
                  elements: seq<Element>, services: Services, similarity: int): (o: Outcome)
    ensures o.NoImages? <==> ImagesOf(elements) == []
    ensures !o.SkippedAsRegistered?
    ensures o.Deleted? ==> o.rule in rows && GuildEdge(guild, o.rule.fileUnique) in edges
    ensures o.Deleted? ==> o.candidate < |ImagesOf(elements)|
    ensures o.Deleted? ==> o.distance == Distance(o.rule.hash, Fingerprint(cache, ImagesOf(elements)[o.candidate], services))
    ensures o.Deleted? ==> o.distance <= similarity
  {
    var images := ImagesOf(elements);
    if images == [] then NoImages
    else if RegisteredAsWritten(GuildEdgesOf(edges, guild), images) then SkippedAsRegistered
    else
      var fps := Fingerprints(cache, images, services);
      var rules := RulesFor(rows, edges, guild);
      match FirstMatch(Hashes(rules), fps, similarity, 0)
      case None => Kept
      case Some(p) =>
        assert rules[p.rule] in rules;
        Deleted(rules[p.rule], p.candidate, Distance(rules[p.rule].hash, fps[p.candidate]))
  }

  /** For a message with images, the outcome is the first pair of the
      rule-major search over the guild's rules, or `Kept` without one. */
  lemma DecideIsFirstMatch(rows: seq<HashRow>, edges: seq<GuildEdge>, cache: map<string, string>, guild: string,
                           elements: seq<Element>, services: Services, similarity: int)
    requires ImagesOf(elements) != []
    ensures var rules := RulesFor(rows, edges, guild);
            var fps := Fingerprints(cache, ImagesOf(elements), services);
            var m := FirstMatch(Hashes(rules), fps, similarity, 0);
            Decide(rows, edges, cache, guild, elements, services, similarity)
            == if m.None? then Kept
               else Deleted(rules[m.value.rule], m.value.candidate, Distance(rules[m.value.rule].hash, fps[m.value.candidate]))
  {
  }

  /** A rule of the guild within the threshold of an image makes the
      rule-major search find a pair. */
  lemma GuildPairFound(rows: seq<HashRow>, edges: seq<GuildEdge>, cache: map<string, string>, guild: string,
                       images: seq<Element>, services: Services, similarity: int, r: HashRow, k: nat)
    requires r in rows && GuildEdge(guild, r.fileUnique) in edges && k < |images|
    requires Within(r.hash, Fingerprint(cache, images[k], services), similarity)
    ensures FirstMatch(Hashes(RulesFor(rows, edges, guild)), Fingerprints(cache, images, services), similarity, 0).Some?
  {
    var rules := RulesFor(rows, edges, guild);
    var fps := Fingerprints(cache, images, services);
    assert r in rules;
    var i :| 0 <= i < |rules| && rules[i] == r;
    assert Within(Hashes(rules)[i], fps[k], similarity);
  }

  /** A message with images is deleted exactly when some hash row registered
      for this guild is within the threshold of some image's fingerprint. */
  lemma DeletedIffGuildRuleWithin(rows: seq<HashRow>, edges: seq<GuildEdge>, cache: map<string, string>, guild: string,
                                  elements: seq<Element>, services: Services, similarity: int)
    requires ImagesOf(elements) != []
    ensures Decide(rows, edges, cache, guild, elements, services, similarity).Deleted?
            <==> exists r, k :: r in rows && GuildEdge(guild, r.fileUnique) in edges && 0 <= k < |ImagesOf(elements)|
                                && Within(r.hash, Fingerprint(cache, ImagesOf(elements)[k], services), similarity)
  {
    var images := ImagesOf(elements);
    var o := Decide(rows, edges, cache, guild, elements, services, similarity);
    if o.Deleted? {
      assert Within(o.rule.hash, Fingerprint(cache, images[o.candidate], services), similarity);
    }
    forall r, k | r in rows && GuildEdge(guild, r.fileUnique) in edges && 0 <= k < |images|
                  && Within(r.hash, Fingerprint(cache, images[k], services), similarity)
      ensures o.Deleted?
    {
      GuildPairFound(rows, edges, cache, guild, images, services, similarity, r, k);
      DecideIsFirstMatch(rows, edges, cache, guild, elements, services, similarity);
    }
  }

  /** Because the threshold is inclusive and never negative, an image whose
      fingerprint equals the hash of a rule registered for the guild is
      always deleted. */
  lemma IdenticalFingerprintDeleted(rows: seq<HashRow>, edges: seq<GuildEdge>, cache: map<string, string>, guild: string,
                                    elements: seq<Element>, services: Services, similarity: int, r: HashRow, k: nat)
    requires similarity >= 0
    requires r in rows && GuildEdge(guild, r.fileUnique) in edges
    requires k < |ImagesOf(elements)| && Fingerprint(cache, ImagesOf(elements)[k], services) == r.hash
    ensures Decide(rows, edges, cache, guild, elements, services, similarity).Deleted?
  {
    IdenticalIsWithin(r.hash, similarity);
    DeletedIffGuildRuleWithin(rows, edges, cache, guild, elements, services, similarity);
  }

  /** Registering an image in another guild changes nothing for this one. */
  lemma OtherGuildEdgeIrrelevant(rows: seq<HashRow>, edges: seq<GuildEdge>, cache: map<string, string>, guild: string,
                                 elements: seq<Element>, services: Services, similarity: int, other: GuildEdge)
    requires other.guild != guild
    ensures Decide(rows, edges + [other], cache, guild, elements, services, similarity)
            == Decide(rows, edges, cache, guild, elements, services, similarity)
  {
    FilterAppend(edges, [other], InGuild(guild));
    assert GuildEdgesOf(edges + [other], guild) == GuildEdgesOf(edges, guild);
  }

  /** The rule-major search over the hashes of `rules`, read back in terms of
      the rules themselves. */
  lemma FirstMatchOfRows(rules: seq<HashRow>, fps: seq<string>, similarity: int)
    ensures var m := FirstMatch(Hashes(rules), fps, similarity, 0);
            m.Some? ==> m.value.rule < |rules|
                        && (forall i', j :: 0 <= i' < m.value.rule && 0 <= j < |fps| ==> !Within(rules[i'].hash, fps[j], similarity))
                        && (forall j :: 0 <= j < m.value.candidate ==> !Within(rules[m.value.rule].hash, fps[j], similarity))
  {
  }

  /** The pair that deletes a message is the first in rule-major order: no
      earlier rule of the guild matches any image, and no earlier image
      matches this rule. */
  lemma DeletedAtFirstPair(rows: seq<HashRow>, edges: seq<GuildEdge>, cache: map<string, string>, guild: string,
                           elements: seq<Element>, services: Services, similarity: int)
    requires Decide(rows, edges, cache, guild, elements, services, similarity).Deleted?
    ensures var o := Decide(rows, edges, cache, guild, elements, services, similarity);
            var rules := RulesFor(rows, edges, guild);
            var fps := Fingerprints(cache, ImagesOf(elements), services);
            exists i :: 0 <= i < |rules| && rules[i] == o.rule
                        && (forall i', j :: 0 <= i' < i && 0 <= j < |fps| ==> !Within(rules[i'].hash, fps[j], similarity))
                        && (forall j :: 0 <= j < o.candidate ==> !Within(o.rule.hash, fps[j], similarity))
  {
    DecideIsFirstMatch(rows, edges, cache, guild, elements, services, similarity);
    var rules := RulesFor(rows, edges, guild);
    var fps := Fingerprints(cache, ImagesOf(elements), services);
    var m := FirstMatch(Hashes(rules), fps, similarity, 0);
    FirstMatchOfRows(rules, fps, similarity);
    assert rules[m.value.rule] == Decide(rows, edges, cache, guild, elements, services, similarity).rule;
  }

  /** Once `.add` has stored a hash and its edge, a message in that guild
      carrying an image with the same fingerprint is deleted. */
  lemma AddedImageIsBlocked(rows: seq<HashRow>, edges: seq<GuildEdge>, cache: map<string, string>, guild: string,
                            elements: seq<Element>, services: Services, similarity: int, added: HashRow, k: nat)
    requires similarity >= 0
    requires k < |ImagesOf(elements)| && Fingerprint(cache, ImagesOf(elements)[k], services) == added.hash
    ensures Decide(rows + [added], edges + [GuildEdge(guild, added.fileUnique)], cache, guild, elements, services, similarity).Deleted?
  {
    IdenticalFingerprintDeleted(rows + [added], edges + [GuildEdge(guild, added.fileUnique)], cache, guild, elements, services, similarity, added, k);
  }

  /** Right after `.del` has removed a content id's hash row, that id deletes
      no message in any guild, whatever edges remain, until the id is added
      again (see `ReAddRevivesStaleEdge`). */
  lemma RemovedRowNeverMatches(rows: seq<HashRow>, edges: seq<GuildEdge>, cache: map<string, string>, guild: string,
                               elements: seq<Element>, services: Services, similarity: int, id: string)
    ensures var o := Decide(Filter(rows, OtherId(id)), edges, cache, guild, elements, services, similarity);
            o.Deleted? ==> o.rule.fileUnique != id
  {
  }

  /** A `.del` in another guild removes the hash row but leaves this guild's
      edge. When any guild adds the same content id again, that stale edge
      matches again: this guild's messages with the image are deleted,
      although this guild never registered the id again. */
  lemma ReAddRevivesStaleEdge(rows: seq<HashRow>, edges: seq<GuildEdge>, cache: map<string, string>, guild: string,
                              deleter: string, elements: seq<Element>, services: Services, similarity: int,
                              id: string, pic: nat, hash: string, added: seq<GuildEdge>, k: nat)
    requires similarity >= 0 && deleter != guild
    requires GuildEdge(guild, id) in edges
    requires k < |ImagesOf(elements)| && Fingerprint(cache, ImagesOf(elements)[k], services) == hash
    ensures Decide(Filter(rows, OtherId(id)) + [HashRow(id, pic, hash)], Filter(edges, NotEdge(deleter, id)) + added,
                   cache, guild, elements, services, similarity).Deleted?
  {
    var row := HashRow(id, pic, hash);
    assert GuildEdge(guild, id) in Filter(edges, NotEdge(deleter, id));
    IdenticalFingerprintDeleted(Filter(rows, OtherId(id)) + [row], Filter(edges, NotEdge(deleter, id)) + added,
                                cache, guild, elements, services, similarity, row, k);
  }

  /** The number `.list` prints for a row, sent back to `.del`, selects that
      row and no other, because sequence numbers are unique. */
  lemma ListedNumberSelectsRow(rows: seq<HashRow>, r: HashRow)
    requires r in rows && DistinctBy(rows, RowPic)
    ensures Filter(rows, PicIs(ParseInt(Decimal(r.pic)))) == [r]
  {
    DecimalParses(r.pic);
    var found := Filter(rows, PicIs(Some(r.pic)));
    FilterDistinctBy(rows, PicIs(Some(r.pic)), RowPic);
    assert r in found;
    forall i | 0 <= i < |found| ensures RowPic(found[i]) == r.pic {
      assert found[i] in found;
    }
    AtMostOneWithKey(found, RowPic, r.pic);
    assert found[0] in found;
  }

  /** Removing an id's rows and one guild's edge to it keeps every key unique. */
  lemma RemovalKeepsKeys(rows: seq<HashRow>, edges: seq<GuildEdge>, guild: string, id: string)
    requires DistinctBy(rows, RowId) && DistinctBy(rows, RowPic) && DistinctBy(edges, EdgeKey)
    ensures DistinctBy(Filter(rows, OtherId(id)), RowId) && DistinctBy(Filter(rows, OtherId(id)), RowPic)
    ensures DistinctBy(Filter(edges, NotEdge(guild, id)), EdgeKey)
    ensures forall e :: e in edges && e.guild != guild ==> e in Filter(edges, NotEdge(guild, id))
  {
    FilterDistinctBy(rows, OtherId(id), RowId);
    FilterDistinctBy(rows, OtherId(id), RowPic);
    FilterDistinctBy(edges, NotEdge(guild, id), EdgeKey);
  }

  // ----- the plugin instance -----

  /** The reply of `.add` and `.del`, named after the message keys it sends.
      `NoReplyThrows` is the TypeError raised by `reply[0]` on an empty reply;
      `DuplicateEdgeThrows` is the database refusing an edge whose primary key
      already exists, after the hash row was inserted. */
  datatype Reply =
    | NoReplyThrows
    | BadImage
    | AlreadyHas
    | SuccessToAdd(pic: nat)
    | DuplicateEdgeThrows(pic: nat)
    | TextOnly
    | NonExist
    | DelSuccess(pic: nat)

  datatype ListReply = HasNoImage | Shown(rows: seq<HashRow>)

  class ImageBlocker {
    const similarity: int
    var hashRows: seq<HashRow>
    var guildEdges: seq<GuildEdge>
    var cache: map<string, string>

    /** Both primary keys hold, sequence numbers are unique, and the
        configured threshold is within the range the settings allow. */
    ghost predicate Valid()
      reads this
    {
      && 0 <= similarity <= 14
      && DistinctBy(hashRows, RowId)
      && DistinctBy(hashRows, RowPic)
      && DistinctBy(guildEdges, EdgeKey)
    }

    /** A fresh installation: empty tables and an empty cache. */
    constructor (similarity: int)
      requires 0 <= similarity <= 14
      ensures Valid()
      ensures this.similarity == similarity && hashRows == [] && guildEdges == [] && cache == map[]
    {
      this.similarity := similarity;
      hashRows := [];
      guildEdges := [];
      cache := map[];
    }

    /** `.list -p page`: the guild's edges, five per page, then the hash rows
        they point at. */
    function List(guild: string, page: int): (reply: ListReply)
      reads this
      requires page >= 1
      ensures reply.HasNoImage? <==> Page(GuildEdgesOf(guildEdges, guild), page) == []
      ensures reply.Shown? ==> forall r :: r in reply.rows <==>
                r in hashRows && exists e :: e in Page(GuildEdgesOf(guildEdges, guild), page) && e.fileUnique == r.fileUnique
    {
      var edges := Page(GuildEdgesOf(guildEdges, guild), page);
      if edges == [] then HasNoImage else Shown(Filter(hashRows, IdIn(IdsOf(edges))))
    }

    /** `.add`: the operator's reply must start with an image; its id must not
        be in the hash table in any guild; then the next sequence number, the
        hash row and the guild edge. */
    method Add(guild: string, reply: seq<Element>, services: Services) returns (result: Reply)
      requires Valid()
      modifies this`hashRows, this`guildEdges
      ensures Valid()
      ensures reply == [] ==> result == NoReplyThrows
      ensures reply != [] && !IsImage(reply[0]) ==> result == BadImage
      ensures reply != [] && IsImage(reply[0])
              && (exists r :: r in old(hashRows) && r.fileUnique == FileUnique(reply[0].filename))
              ==> result == AlreadyHas
      ensures reply != [] && IsImage(reply[0])
              && (forall r :: r in old(hashRows) ==> r.fileUnique != FileUnique(reply[0].filename))
              ==> result.SuccessToAdd? || result.DuplicateEdgeThrows?
      ensures result in {NoReplyThrows, BadImage, AlreadyHas} ==> hashRows == old(hashRows) && guildEdges == old(guildEdges)
      ensures result !in {NoReplyThrows, BadImage, AlreadyHas} ==>
                reply != [] && IsImage(reply[0])
                && (result.SuccessToAdd? || result.DuplicateEdgeThrows?)
                && var id := FileUnique(reply[0].filename);
                && (forall r :: r in old(hashRows) ==> r.fileUnique != id && r.pic < result.pic)
                && result.pic == MaxPic(old(hashRows)) + 1
                && hashRows == old(hashRows) + [HashRow(id, result.pic, HashOf(reply[0], services))]
                && (result.SuccessToAdd? <==> GuildEdge(guild, id) !in old(guildEdges))
                && guildEdges == if result.SuccessToAdd? then old(guildEdges) + [GuildEdge(guild, id)] else old(guildEdges)
    {
      if reply == [] {
        return NoReplyThrows;
      }
      var img := reply[0];
      if !IsImage(img) {
        return BadImage;
      }
      var id := FileUnique(img.filename);
      var alreadyHas := Filter(hashRows, HasId(id));
      if alreadyHas != [] {
        assert alreadyHas[0] in alreadyHas;
        return AlreadyHas;
      }
      var image := services.download(img.src);
      var pic := MaxPic(hashRows) + 1;
      var hash := services.imghash(image);
      var row := HashRow(id, pic, hash);
      AppendDistinctBy(hashRows, row, RowId);
      AppendDistinctBy(hashRows, row, RowPic);
      hashRows := hashRows + [row];
      var edge := GuildEdge(guild, id);
      if edge in guildEdges {
        return DuplicateEdgeThrows(pic);
      }
      AppendDistinctBy(guildEdges, edge, EdgeKey);
      guildEdges := guildEdges + [edge];
      return SuccessToAdd(pic);
    }

    /** `.del`: the operator's reply must start with text, parsed with
        `parseInt`; the hash row with that sequence number goes from the
        whole table, but only this guild's edge to it goes. */
    method Del(guild: string, reply: seq<Element>) returns (result: Reply)
      requires Valid()
      modifies this`hashRows, this`guildEdges
      ensures Valid()
      ensures reply == [] ==> result == NoReplyThrows
      ensures reply != [] && reply[0].kind != "text" ==> result == TextOnly
      ensures reply != [] && reply[0].kind == "text" ==>
                (result == NonExist <==> forall r :: r in old(hashRows) ==> !PicIs(ParseInt(reply[0].content))(r))
      ensures reply != [] && reply[0].kind == "text"
              && (exists r :: r in old(hashRows) && PicIs(ParseInt(reply[0].content))(r))
              ==> result.DelSuccess?
      ensures result in {NoReplyThrows, TextOnly, NonExist} ==> hashRows == old(hashRows) && guildEdges == old(guildEdges)
      ensures result !in {NoReplyThrows, TextOnly, NonExist} ==>
                result.DelSuccess? && reply != [] && ParseInt(reply[0].content) == Some(result.pic as int)
                && (exists r :: r in old(hashRows) && r.pic == result.pic
                      && hashRows == Filter(old(hashRows), OtherId(r.fileUnique))
                      && guildEdges == Filter(old(guildEdges), NotEdge(guild, r.fileUnique)))
      ensures result.DelSuccess? ==> forall e :: e in old(guildEdges) && e.guild != guild ==> e in guildEdges
    {
      if reply == [] {
        return NoReplyThrows;
      }
      if reply[0].kind != "text" {
        return TextOnly;
      }
      var num := ParseInt(reply[0].content);
      var found := Filter(hashRows, PicIs(num));
      if found == [] {
        assert forall r :: r in hashRows ==> !PicIs(num)(r);
        return NonExist;
      }
      var row := found[0];
      assert row in found;
      assert row in hashRows && PicIs(num)(row);
      assert num == Some(row.pic as int);
      RemovalKeepsKeys(hashRows, guildEdges, guild, row.fileUnique);
      hashRows := Filter(hashRows, OtherId(row.fileUnique));
      guildEdges := Filter(guildEdges, NotEdge(guild, row.fileUnique));
      result := DelSuccess(row.pic);
    }

    /** `Promise.all(images_to_check.map(...))`: each image's hash from the
        cache as it was when the message arrived, or on a miss downloaded,
        hashed and written back under its filename stem. */
    method HashImages(images: seq<Element>, services: Services) returns (fps: seq<string>)
      modifies this`cache
      ensures fps == Fingerprints(old(cache), images, services)
      ensures cache == CacheAfter(old(cache), images, |images|, services)
    {
      var snapshot := cache;
      fps := [];
      var i := 0;
      while i < |images|
        invariant 0 <= i <= |images|
        invariant fps == Fingerprints(snapshot, images[..i], services)
        invariant cache == CacheAfter(snapshot, images, i, services)
      {
        var img := images[i];
        var hash: string;
        var cached := CacheGet(snapshot, img.fileUnique);
        StepOneImage(snapshot, images, i, services);
        if cached.Some? {
          hash := cached.value;
        } else {
          var image := services.download(img.src);
          hash := services.imghash(image);
          cache := cache[FileUnique(img.filename) := hash];
        }
        fps := fps + [hash];
        i := i + 1;
      }
      assert images[..i] == images;
    }

    /** The `message` handler: pick the images out, hash each (through the
        cache), then run the rule-major search over the guild's rules and
        delete the message at the first pair within the threshold. */
    method OnMessage(guild: string, elements: seq<Element>, services: Services) returns (outcome: Outcome)
      requires Valid()
      modifies this`cache
      ensures Valid()
      ensures outcome == Decide(hashRows, guildEdges, old(cache), guild, elements, services, similarity)
      ensures outcome.NoImages? ==> cache == old(cache)
      ensures !outcome.NoImages? ==> cache == CacheAfter(old(cache), ImagesOf(elements), |ImagesOf(elements)|, services)
    {
      var images := ImagesOf(elements);
      if images == [] {
        return NoImages;
      }
      var mine := GuildEdgesOf(guildEdges, guild);
      if RegisteredAsWritten(mine, images) {
        return SkippedAsRegistered;
      }
      var fps := HashImages(images, services);
      var rules := RulesFor(hashRows, guildEdges, guild);
      var found := FindFirstMatch(Hashes(rules), fps, similarity);
      match found {
        case None =>
          outcome := Kept;
        case Some(p) =>
          var distance := Distance(rules[p.rule].hash, fps[p.candidate]);
          outcome := Deleted(rules[p.rule], p.candidate, distance);
      }
    }
  }
}

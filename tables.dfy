/** The two database tables: `imageBlockerHash` (one row per content id, keyed
    by `file_unique`) and `imageBlockerGuild` (guild/content-id edges, keyed by
    both columns), with the queries the commands and the message handler run
    on them. A table is a sequence of rows in the order the database returns
    them. */
module Tables {
  import opened Optional
  import opened Seqs

  datatype HashRow = HashRow(fileUnique: string, pic: nat, hash: string)

  datatype GuildEdge = GuildEdge(guild: string, fileUnique: string)

  /** Primary key of `imageBlockerHash`. */
  function RowId(r: HashRow): string { r.fileUnique }

  /** The sequence number column, unique by construction rather than by key. */
  function RowPic(r: HashRow): nat { r.pic }

  /** Primary key of `imageBlockerGuild`: `[file_unique, guild]`. */
  function EdgeKey(e: GuildEdge): (string, string) { (e.fileUnique, e.guild) }

  /** `where({ file_unique: id })` */
  function HasId(id: string): HashRow -> bool { (r: HashRow) => r.fileUnique == id }

  /** `where({ file_unique: ids })`, i.e. `$in` over a list of ids. */
  function IdIn(ids: set<string>): HashRow -> bool { (r: HashRow) => r.fileUnique in ids }

  /** `$.eq(row.pic, num)`; NaN equals nothing. */
  function PicIs(num: Option<int>): (p: HashRow -> bool)
    ensures forall r :: p(r) <==> num == Some(r.pic as int)
    ensures num.None? ==> forall r :: !p(r)
  {
    (r: HashRow) => num.Some? && r.pic == num.value
  }

  /** Rows that survive `remove({ file_unique: id })`. */
  function OtherId(id: string): HashRow -> bool { (r: HashRow) => r.fileUnique != id }

  /** `$.eq(row.guild, guild)` */
  function InGuild(guild: string): GuildEdge -> bool { (e: GuildEdge) => e.guild == guild }

  /** Edges that survive removing the one edge `(guild, id)`. */
  function NotEdge(guild: string, id: string): GuildEdge -> bool
  {
    (e: GuildEdge) => !(e.fileUnique == id && e.guild == guild)
  }

  /** The content ids the edges point at (`fq_guild.map(fg => fg.file_unique)`). */
  function IdsOf(edges: seq<GuildEdge>): (ids: set<string>)
    ensures forall id :: id in ids <==> exists e :: e in edges && e.fileUnique == id
  {
    set e | e in edges :: e.fileUnique
  }

  /** `select(...).execute(row => $.max(row.pic))`. On an empty table the
      aggregate is NULL and `NULL + 1` is 1 in JavaScript, so the model takes
      the maximum of no rows to be 0. */
  function MaxPic(rows: seq<HashRow>): (m: nat)
    ensures forall r :: r in rows ==> r.pic <= m
    ensures rows != [] ==> exists r :: r in rows && r.pic == m
    ensures rows == [] ==> m == 0
  {
    if rows == [] then 0
    else
      var m := MaxPic(rows[1..]);
      assert forall r :: r in rows ==> r == rows[0] || r in rows[1..];
      if rows[0].pic < m then m else rows[0].pic
  }

  const PageSize: nat := 5

  /** `.limit(5).offset((page - 1) * 5)` over the edges a query returned. */
  function Page(edges: seq<GuildEdge>, page: int): (r: seq<GuildEdge>)
    requires page >= 1
    ensures |r| <= PageSize
    ensures |r| == if |edges| <= (page - 1) * PageSize then 0
                   else if |edges| - (page - 1) * PageSize < PageSize then |edges| - (page - 1) * PageSize
                   else PageSize
    ensures forall k :: 0 <= k < |r| ==> r[k] == edges[(page - 1) * PageSize + k]
  {
    var offset := (page - 1) * PageSize;
    if |edges| <= offset then []
    else if |edges| - offset < PageSize then edges[offset..]
    else edges[offset..offset + PageSize]
  }

  /** Edge number `i` of a listing is item `i % 5` of page `i / 5 + 1`. */
  lemma PageOfIndex(edges: seq<GuildEdge>, i: nat)
    requires i < |edges|
    ensures i % PageSize < |Page(edges, i / PageSize + 1)|
    ensures Page(edges, i / PageSize + 1)[i % PageSize] == edges[i]
  {
    var p := i / PageSize + 1;
    assert (p - 1) * PageSize + i % PageSize == i;
  }

  /** When the edges are distinct (the table's primary key), an edge is shown
      on its own page and on no other. */
  lemma OnlyOnItsPage(edges: seq<GuildEdge>, i: nat, page: int)
    requires i < |edges| && page >= 1
    requires DistinctBy(edges, EdgeKey)
    requires edges[i] in Page(edges, page)
    ensures page == i / PageSize + 1
  {
    var r := Page(edges, page);
    var k :| 0 <= k < |r| && r[k] == edges[i];
    var j := (page - 1) * PageSize + k;
    assert edges[j] == edges[i];
    assert j == i;
    assert i / PageSize == page - 1;
  }
}

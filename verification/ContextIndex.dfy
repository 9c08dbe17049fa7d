/** The incremental file index: after a build it is what a build from nothing gives. */
module ContextIndex {
  import opened Bits
  import opened Seqs
  import opened IndexChunks

  const MAX_INDEXED_FILE_BYTES: nat := 512 * 1024

  datatype Language = Rust | TypeScript | Python | Go | Toml | Json | Markdown | Other

  datatype DiskFile = DiskFile(content: seq<Byte>, mtime: int)

  type Disk = map<string, DiskFile>

  /** What the index takes from elsewhere: the hash, the language of a path, the
      decoding of bytes, and the harvest of symbols, imports and tests. */
  datatype Env = Env(
    hash: seq<Byte> -> string,
    language: string -> Language,
    decode: seq<Byte> -> string,
    harvest: (string, Language, string) -> seq<string>)

  datatype FileRow = FileRow(sha: string, bytes: nat, mtime: int, language: Language)

  /** A row of a table that is filled per file: of lexical chunks, or of symbols, imports and tests. */
  datatype Row = ChunkRow(path: string, chunk: Chunk) | HarvestRow(path: string, data: string)

  function ShouldIndex(language: Language, size: nat): bool {
    language != Other && size <= MAX_INDEXED_FILE_BYTES
  }

  predicate Indexable(env: Env, disk: Disk, p: string) {
    p in disk && ShouldIndex(env.language(p), |disk[p].content|)
  }

  // ------------------------------------------------------------------------------- the rows

  function RowsFor(rows: seq<Row>, p: string): seq<Row> {
    if rows == [] then []
    else RowsFor(rows[..|rows| - 1], p) + if rows[|rows| - 1].path == p then [rows[|rows| - 1]] else []
  }

  function WithoutPath(rows: seq<Row>, p: string): seq<Row> {
    if rows == [] then []
    else WithoutPath(rows[..|rows| - 1], p) + if rows[|rows| - 1].path == p then [] else [rows[|rows| - 1]]
  }

  lemma {:induction false} RowsConcat(a: seq<Row>, b: seq<Row>, p: string)
    ensures RowsFor(a + b, p) == RowsFor(a, p) + RowsFor(b, p)
    decreases |b|
  {
    if b == [] {
      assert a + b == a;
    } else {
      var n := |b| - 1;
      assert (a + b)[..|a| + n] == a + b[..n];
      RowsConcat(a, b[..n], p);
    }
  }

  lemma {:induction false} RowsWithout(rows: seq<Row>, p: string, q: string)
    ensures RowsFor(WithoutPath(rows, p), q) == if p == q then [] else RowsFor(rows, q)
  {
    if rows != [] {
      var n := |rows| - 1;
      var kept := if rows[n].path == p then [] else [rows[n]];
      RowsWithout(rows[..n], p, q);
      RowsConcat(WithoutPath(rows[..n], p), kept, q);
      RowsOfOnePath(kept, rows[n].path, q);
    }
  }

  lemma {:induction false} RowsOfOnePath(rows: seq<Row>, p: string, q: string)
    requires forall i :: 0 <= i < |rows| ==> rows[i].path == p
    ensures RowsFor(rows, q) == if p == q then rows else []
  {
    if rows != [] {
      RowsOfOnePath(rows[..|rows| - 1], p, q);
      SnocPrefix(rows, |rows| - 1);
    }
  }

  function ChunkRows(p: string, chunks: seq<Chunk>): (r: seq<Row>)
    ensures |r| == |chunks| && forall i :: 0 <= i < |r| ==> r[i] == ChunkRow(p, chunks[i])
  {
    seq(|chunks|, i requires 0 <= i < |chunks| => ChunkRow(p, chunks[i]))
  }

  function HarvestRows(p: string, data: seq<string>): (r: seq<Row>)
    ensures |r| == |data| && forall i :: 0 <= i < |r| ==> r[i] == HarvestRow(p, data[i])
  {
    seq(|data|, i requires 0 <= i < |data| => HarvestRow(p, data[i]))
  }

  /** The rows a file with this content has. */
  function FileRows(env: Env, p: string, content: seq<Byte>): (r: seq<Row>)
    ensures forall i :: 0 <= i < |r| ==> r[i].path == p
  {
    var text := env.decode(content);
    ChunkRows(p, Chunks(TextLines(text))) + HarvestRows(p, env.harvest(p, env.language(p), text))
  }

  function RecordOf(env: Env, p: string, f: DiskFile): FileRow {
    FileRow(env.hash(f.content), |f.content|, f.mtime, env.language(p))
  }

  // ------------------------------------------------------------------- what a database may be

  datatype Database = Database(files: map<string, FileRow>, rows: seq<Row>)

  /** The record and the rows of `p` are those of `content`. */
  ghost predicate Backs(env: Env, db: Database, p: string, content: seq<Byte>) {
    && p in db.files
    && db.files[p].sha == env.hash(content) && db.files[p].bytes == |content| && db.files[p].language == env.language(p)
    && RowsFor(db.rows, p) == FileRows(env, p, content)
  }

  /** The rows agree with the file records: whichever content each record stands for. */
  ghost predicate PathAgrees(env: Env, db: Database, p: string) {
    if p in db.files then exists content :: Backs(env, db, p, content) else RowsFor(db.rows, p) == []
  }

  ghost predicate Agrees(env: Env, db: Database) {
    forall p :: PathAgrees(env, db, p)
  }

  /** The record and rows of `p` are those of the file on disk now, or none. */
  ghost predicate PathCurrent(env: Env, disk: Disk, db: Database, p: string) {
    if Indexable(env, disk, p) then
      p in db.files && db.files[p] == RecordOf(env, p, disk[p])
      && RowsFor(db.rows, p) == FileRows(env, p, disk[p].content)
    else
      p !in db.files && RowsFor(db.rows, p) == []
  }

  ghost predicate Current(env: Env, disk: Disk, db: Database) {
    forall p :: PathCurrent(env, disk, db, p)
  }

  ghost predicate CollisionFree(env: Env) {
    forall a, b {:trigger env.hash(a), env.hash(b)} :: env.hash(a) == env.hash(b) ==> a == b
  }

  const NOTHING := Database(map[], [])

  lemma NothingAgrees(env: Env)
    ensures Agrees(env, NOTHING)
  {
  }

  lemma CurrentAgrees(env: Env, disk: Disk, db: Database)
    requires Current(env, disk, db)
    ensures Agrees(env, db)
  {
    hide FileRows;
    hide RowsFor;
    forall p
      ensures PathAgrees(env, db, p)
    {
      assert PathCurrent(env, disk, db, p);
      if p in db.files {
        assert Backs(env, db, p, disk[p].content);
      }
    }
  }

  // ----------------------------------------------------------------- the steps of a build

  /** The file's old rows go, its record and its new rows come. */
  function Reindexed(env: Env, db: Database, p: string, f: DiskFile): Database {
    Database(db.files[p := RecordOf(env, p, f)], WithoutPath(db.rows, p) + FileRows(env, p, f.content))
  }

  function Removed(db: Database, p: string): Database {
    Database(db.files - {p}, WithoutPath(db.rows, p))
  }

  lemma ReindexedRows(env: Env, db: Database, p: string, f: DiskFile, q: string)
    ensures RowsFor(Reindexed(env, db, p, f).rows, q)
      == if p == q then FileRows(env, p, f.content) else RowsFor(db.rows, q)
  {
    hide FileRows;
    var added := FileRows(env, p, f.content);
    RowsConcat(WithoutPath(db.rows, p), added, q);
    RowsWithout(db.rows, p, q);
    RowsOfOnePath(added, p, q);
  }

  /** Another path is not touched. */
  ghost predicate SameFor(a: Database, b: Database, p: string) {
    && (p in a.files <==> p in b.files) && (p in a.files ==> a.files[p] == b.files[p])
    && RowsFor(a.rows, p) == RowsFor(b.rows, p)
  }

  lemma ReindexMakesCurrent(env: Env, disk: Disk, db: Database, p: string)
    requires Indexable(env, disk, p)
    ensures PathCurrent(env, disk, Reindexed(env, db, p, disk[p]), p)
    ensures forall q :: q != p ==> SameFor(Reindexed(env, db, p, disk[p]), db, q)
  {
    hide FileRows;
    hide RowsFor;
    hide WithoutPath;
    var after := Reindexed(env, db, p, disk[p]);
    ReindexedRows(env, db, p, disk[p], p);
    forall q | q != p
      ensures SameFor(after, db, q)
    {
      ReindexedRows(env, db, p, disk[p], q);
    }
  }

  lemma RemoveMakesCurrent(env: Env, disk: Disk, db: Database, p: string)
    requires !Indexable(env, disk, p)
    ensures PathCurrent(env, disk, Removed(db, p), p)
    ensures forall q :: q != p ==> SameFor(Removed(db, p), db, q)
  {
    hide FileRows;
    hide RowsFor;
    hide WithoutPath;
    RowsWithout(db.rows, p, p);
    forall q | q != p
      ensures SameFor(Removed(db, p), db, q)
    {
      RowsWithout(db.rows, p, q);
    }
  }

  /** A record with the hash and time of the file on disk is current as it is. */
  lemma UnchangedIsCurrent(env: Env, disk: Disk, db: Database, p: string)
    requires CollisionFree(env) && PathAgrees(env, db, p) && Indexable(env, disk, p)
    requires p in db.files && db.files[p].sha == env.hash(disk[p].content) && db.files[p].mtime == disk[p].mtime
    ensures PathCurrent(env, disk, db, p)
  {
    hide FileRows;
    hide RowsFor;
    var content :| Backs(env, db, p, content);
    assert content == disk[p].content;
  }

  lemma SameStaysCurrent(env: Env, disk: Disk, a: Database, b: Database, p: string)
    requires SameFor(a, b, p)
    ensures PathCurrent(env, disk, a, p) <==> PathCurrent(env, disk, b, p)
    ensures PathAgrees(env, a, p) <==> PathAgrees(env, b, p)
  {
    hide FileRows;
    hide RowsFor;
    if p in a.files {
      forall content
        ensures Backs(env, a, p, content) <==> Backs(env, b, p, content)
      {
      }
    }
  }

  // ------------------------------------------------------------------------------ the build

  /** The record has the hash and the time of the file on disk. */
  predicate Unchanged(env: Env, disk: Disk, files: map<string, FileRow>, p: string)
    requires p in disk
  {
    p in files && files[p].sha == env.hash(disk[p].content) && files[p].mtime == disk[p].mtime
  }

  /** What a build leaves of path `p`, whatever was there before. */
  ghost predicate PathBuilt(env: Env, disk: Disk, before: Database, after: Database, p: string) {
    if Indexable(env, disk, p) then
      if Unchanged(env, disk, before.files, p) then SameFor(after, before, p) else PathCurrent(env, disk, after, p)
    else
      if p in before.files then PathCurrent(env, disk, after, p) else SameFor(after, before, p)
  }

  /** The state of the build when the indexable paths in `seen` were visited. */
  ghost predicate Visited(env: Env, disk: Disk, before: Database, now: Database, seen: set<string>) {
    forall p :: if p in seen then PathBuilt(env, disk, before, now, p) else SameFor(now, before, p)
  }

  /** The paths in `gone` of the old records were removed as well. */
  ghost predicate Cleaned(env: Env, disk: Disk, before: Database, now: Database, seen: set<string>, gone: set<string>) {
    forall p :: if p in seen || p in gone then PathBuilt(env, disk, before, now, p) else SameFor(now, before, p)
  }

  lemma VisitReindexed(env: Env, disk: Disk, before: Database, now: Database, seen: set<string>, p: string)
    requires Visited(env, disk, before, now, seen)
    requires Indexable(env, disk, p) && !Unchanged(env, disk, before.files, p) && p !in seen
    ensures Visited(env, disk, before, Reindexed(env, now, p, disk[p]), seen + {p})
  {
    hide FileRows;
    hide RowsFor;
    hide WithoutPath;
    hide Reindexed;
    var after := Reindexed(env, now, p, disk[p]);
    ReindexMakesCurrent(env, disk, now, p);
    forall q
      ensures if q in seen + {p} then PathBuilt(env, disk, before, after, q) else SameFor(after, before, q)
    {
      if q != p {
        assert SameFor(after, now, q);
        SameStaysCurrent(env, disk, after, now, q);
      }
    }
  }

  lemma VisitRemoved(env: Env, disk: Disk, before: Database, now: Database, seen: set<string>, gone: set<string>,
      p: string)
    requires Cleaned(env, disk, before, now, seen, gone)
    requires !Indexable(env, disk, p) && p in before.files
    ensures Cleaned(env, disk, before, Removed(now, p), seen, gone + {p})
  {
    hide FileRows;
    hide RowsFor;
    hide WithoutPath;
    hide Removed;
    var after := Removed(now, p);
    RemoveMakesCurrent(env, disk, now, p);
    forall q
      ensures if q in seen || q in gone + {p} then PathBuilt(env, disk, before, after, q) else SameFor(after, before, q)
    {
      if q != p {
        assert SameFor(after, now, q);
        SameStaysCurrent(env, disk, after, now, q);
      }
    }
  }

  datatype Report = Report(indexed: nat, changed: nat, skipped: nat)

  function CountIndexed(env: Env, disk: Disk, paths: seq<string>): nat {
    if paths == [] then 0
    else CountIndexed(env, disk, paths[..|paths| - 1]) + if Indexable(env, disk, paths[|paths| - 1]) then 1 else 0
  }

  function CountChanged(env: Env, disk: Disk, files: map<string, FileRow>, paths: seq<string>): nat {
    if paths == [] then 0
    else
      var p := paths[|paths| - 1];
      CountChanged(env, disk, files, paths[..|paths| - 1]) +
        if Indexable(env, disk, p) && !Unchanged(env, disk, files, p) then 1 else 0
  }

  /** The scan lists every file on disk once. */
  ghost predicate Scans(disk: Disk, scanned: seq<string>) {
    && (forall p :: p in scanned <==> p in disk)
    && (forall i, j :: 0 <= i < j < |scanned| ==> scanned[i] != scanned[j])
  }

  class IndexDatabase {
    var files: map<string, FileRow>
    var rows: seq<Row>

    ghost function View(): Database
      reads this
    {
      Database(files, rows)
    }

    constructor ()
      ensures View() == NOTHING
    {
      files, rows := map[], [];
    }

    method DeletePathRows(p: string)
      modifies this`rows
      ensures rows == WithoutPath(old(rows), p)
    {
      var kept: seq<Row> := [];
      assert rows[..|rows|] == rows;
      for k := 0 to |rows|
        invariant rows == old(rows) && kept == WithoutPath(rows[..k], p)
      {
        assert rows[..k + 1][..k] == rows[..k];
        if rows[k].path != p {
          kept := kept + [rows[k]];
        }
      }
      rows := kept;
    }

    method Reindex(env: Env, p: string, f: DiskFile)
      modifies this
      ensures View() == Reindexed(env, old(View()), p, f)
    {
      DeletePathRows(p);
      var text := env.decode(f.content);
      files := files[p := FileRow(env.hash(f.content), |f.content|, f.mtime, env.language(p))];
      var chunks := CutChunks(text);
      Reassociate(rows, ChunkRows(p, chunks), HarvestRows(p, env.harvest(p, env.language(p), text)));
      rows := rows + ChunkRows(p, chunks);
      rows := rows + HarvestRows(p, env.harvest(p, env.language(p), text));
    }

    method VisitFiles(env: Env, disk: Disk, scanned: seq<string>, existing: map<string, FileRow>)
      returns (report: Report, seen: set<string>)
      requires Scans(disk, scanned) && existing == files
      modifies this
      ensures Visited(env, disk, old(View()), View(), seen)
      ensures forall p :: p in seen <==> Indexable(env, disk, p)
      ensures report.indexed == CountIndexed(env, disk, scanned)
      ensures report.changed == CountChanged(env, disk, existing, scanned)
      ensures report.skipped == |scanned| - report.indexed
      ensures report.changed == 0 ==> View() == old(View())
    {
      hide Visited;
      seen := {};
      var indexed, changed, skipped := 0, 0, 0;
      StartVisiting(env, disk, View());
      assert scanned[..|scanned|] == scanned;
      for k := 0 to |scanned|
        invariant Visited(env, disk, old(View()), View(), seen)
        invariant forall p :: p in seen <==> p in scanned[..k] && Indexable(env, disk, p)
        invariant indexed == CountIndexed(env, disk, scanned[..k]) && skipped == k - indexed
        invariant changed == CountChanged(env, disk, existing, scanned[..k])
        invariant changed == 0 ==> View() == old(View())
      {
        var p := scanned[k];
        assert scanned[..k + 1][..k] == scanned[..k];
        SnocPrefix(scanned, k);
        NotAgain(scanned, k);
        assert p in disk;
        if !ShouldIndex(env.language(p), |disk[p].content|) {
          skipped := skipped + 1;
          continue;
        }
        if p in existing && existing[p].sha == env.hash(disk[p].content) && existing[p].mtime == disk[p].mtime {
          VisitUnchanged(env, disk, old(View()), View(), seen, p);
          seen := seen + {p};
          indexed := indexed + 1;
          continue;
        }
        changed, indexed := changed + 1, indexed + 1;
        VisitReindexed(env, disk, old(View()), View(), seen, p);
        seen := seen + {p};
        Reindex(env, p, disk[p]);
      }
      report := Report(indexed, changed, skipped);
    }

    /** The old records of files that are gone or no longer indexed are removed with their rows. */
    method RemoveGone(env: Env, disk: Disk, existing: map<string, FileRow>, seen: set<string>, ghost before: Database)
      requires existing == before.files && Visited(env, disk, before, View(), seen)
      requires forall p :: p in seen <==> Indexable(env, disk, p)
      modifies this
      ensures forall p :: PathBuilt(env, disk, before, View(), p)
      ensures existing.Keys <= seen ==> View() == old(View())
    {
      hide PathBuilt;
      hide SameFor;
      var left := existing.Keys;
      ghost var gone: set<string> := {};
      while left != {}
        invariant left <= existing.Keys && gone == existing.Keys - left - seen
        invariant Cleaned(env, disk, before, View(), seen, gone)
        invariant existing.Keys <= seen ==> View() == old(View())
        decreases left
      {
        var p :| p in left;
        left := left - {p};
        if p !in seen {
          VisitRemoved(env, disk, before, View(), seen, gone, p);
          DeletePathRows(p);
          files := files - {p};
          gone := gone + {p};
        }
      }
      AllVisited(env, disk, before, View(), seen, gone);
    }

    method BuildIndex(env: Env, disk: Disk, scanned: seq<string>) returns (report: Report)
      requires Scans(disk, scanned)
      modifies this
      ensures forall p :: PathBuilt(env, disk, old(View()), View(), p)
      ensures report.indexed == CountIndexed(env, disk, scanned) && report.skipped == |scanned| - report.indexed
      ensures report.changed == CountChanged(env, disk, old(files), scanned)
      ensures report.changed == 0 && (forall p :: p in old(files) ==> Indexable(env, disk, p)) ==> View() == old(View())
    {
      hide PathBuilt;
      hide SameFor;
      hide Visited;
      var existing := files;
      var seen;
      report, seen := VisitFiles(env, disk, scanned, existing);
      RemoveGone(env, disk, existing, seen, old(View()));
    }

    /** Files on disk whose record is missing or has another time, and records without their file. */
    method IndexStatus(env: Env, disk: Disk, scanned: seq<string>) returns (stale: nat)
      requires Scans(disk, scanned)
      ensures stale == CountStale(env, disk, files, scanned) + |Orphans(env, disk, files)|
      ensures stale == 0 <==> LooksFresh(env, disk, files)
    {
      hide LooksFresh;
      stale := 0;
      var seen: set<string> := {};
      assert scanned[..|scanned|] == scanned;
      for k := 0 to |scanned|
        invariant forall p :: p in seen <==> p in scanned[..k] && Indexable(env, disk, p)
        invariant stale == CountStale(env, disk, files, scanned[..k])
      {
        var p := scanned[k];
        assert scanned[..k + 1][..k] == scanned[..k];
        SnocPrefix(scanned, k);
        assert p in disk;
        if !ShouldIndex(env.language(p), |disk[p].content|) {
          continue;
        }
        seen := seen + {p};
        if p in files && files[p].mtime == disk[p].mtime {
          continue;
        }
        stale := stale + 1;
      }
      NoneStale(env, disk, files, scanned);
      var orphans := set p | p in files && p !in seen;
      assert orphans == Orphans(env, disk, files);
      stale := stale + |orphans|;
    }
  }

  function CountStale(env: Env, disk: Disk, files: map<string, FileRow>, paths: seq<string>): nat {
    if paths == [] then 0
    else
      var p := paths[|paths| - 1];
      CountStale(env, disk, files, paths[..|paths| - 1])
        + if Indexable(env, disk, p) && !TimeMatches(disk, files, p) then 1 else 0
  }

  /** Records of files that are gone or no longer indexed. */
  function Orphans(env: Env, disk: Disk, files: map<string, FileRow>): set<string> {
    set p | p in files && !Indexable(env, disk, p)
  }

  predicate TimeMatches(disk: Disk, files: map<string, FileRow>, p: string)
    requires p in disk
  {
    p in files && files[p].mtime == disk[p].mtime
  }

  /** All that the status looks at: the same paths, with the same times. */
  ghost predicate LooksFresh(env: Env, disk: Disk, files: map<string, FileRow>) {
    && (forall p :: p in files ==> Indexable(env, disk, p))
    && (forall p :: Indexable(env, disk, p) ==> TimeMatches(disk, files, p))
  }

  lemma {:induction false} CountStaleIsZero(env: Env, disk: Disk, files: map<string, FileRow>, paths: seq<string>)
    ensures CountStale(env, disk, files, paths) == 0 <==>
      forall i :: 0 <= i < |paths| && Indexable(env, disk, paths[i]) ==> TimeMatches(disk, files, paths[i])
  {
    if paths != [] {
      var n := |paths| - 1;
      CountStaleIsZero(env, disk, files, paths[..n]);
      assert forall i :: 0 <= i < n ==> paths[..n][i] == paths[i];
    }
  }

  lemma NoneStale(env: Env, disk: Disk, files: map<string, FileRow>, scanned: seq<string>)
    requires Scans(disk, scanned)
    ensures CountStale(env, disk, files, scanned) + |Orphans(env, disk, files)| == 0 <==> LooksFresh(env, disk, files)
  {
    hide Indexable;
    hide TimeMatches;
    CountStaleIsZero(env, disk, files, scanned);
    NoOrphans(env, disk, files);
    assert forall i :: 0 <= i < |scanned| ==> scanned[i] in disk;
    forall p | Indexable(env, disk, p) && CountStale(env, disk, files, scanned) == 0
      ensures p in disk && TimeMatches(disk, files, p)
    {
      IndexableIsOnDisk(env, disk, p);
      assert p in scanned;
      var i :| 0 <= i < |scanned| && scanned[i] == p;
    }
  }

  lemma IndexableIsOnDisk(env: Env, disk: Disk, p: string)
    requires Indexable(env, disk, p)
    ensures p in disk
  {
  }

  lemma NoOrphans(env: Env, disk: Disk, files: map<string, FileRow>)
    ensures |Orphans(env, disk, files)| == 0 <==> forall p :: p in files ==> Indexable(env, disk, p)
  {
    if |Orphans(env, disk, files)| == 0 {
      assert Orphans(env, disk, files) == {};
      forall p | p in files
        ensures Indexable(env, disk, p)
      {
        assert p !in Orphans(env, disk, files);
      }
    }
  }

  lemma StartVisiting(env: Env, disk: Disk, db: Database)
    ensures Visited(env, disk, db, db, {})
  {
  }

  lemma NotAgain(scanned: seq<string>, k: nat)
    requires k < |scanned| && forall i, j :: 0 <= i < j < |scanned| ==> scanned[i] != scanned[j]
    ensures scanned[k] !in scanned[..k]
  {
  }

  lemma VisitUnchanged(env: Env, disk: Disk, before: Database, now: Database, seen: set<string>, p: string)
    requires Visited(env, disk, before, now, seen) && p !in seen
    requires Indexable(env, disk, p) && Unchanged(env, disk, before.files, p)
    ensures Visited(env, disk, before, now, seen + {p})
  {
    hide SameFor;
    hide PathCurrent;
  }

  lemma AllVisited(env: Env, disk: Disk, before: Database, now: Database, seen: set<string>, gone: set<string>)
    requires Cleaned(env, disk, before, now, seen, gone) && gone == before.files.Keys - seen
    requires forall p :: p in seen <==> Indexable(env, disk, p)
    ensures forall p :: PathBuilt(env, disk, before, now, p)
  {
    hide SameFor;
    hide PathCurrent;
  }

  // ------------------------------------------------------------------------ what a build promises

  /** From any database whose rows agree with its records, a build ends with the rows of what is on disk. */
  lemma BuildMakesCurrent(env: Env, disk: Disk, before: Database, after: Database)
    requires CollisionFree(env) && Agrees(env, before)
    requires forall p :: PathBuilt(env, disk, before, after, p)
    ensures Current(env, disk, after)
  {
    hide RowsFor;
    hide FileRows;
    forall p
      ensures PathCurrent(env, disk, after, p)
    {
      assert PathBuilt(env, disk, before, after, p) && PathAgrees(env, before, p);
      if Indexable(env, disk, p) && Unchanged(env, disk, before.files, p) {
        UnchangedIsCurrent(env, disk, before, p);
        SameStaysCurrent(env, disk, after, before, p);
      }
    }
  }

  lemma {:induction false} CountsFromPaths(rows: seq<Row>, r: Row)
    ensures multiset(RowsFor(rows, r.path))[r] == multiset(rows)[r]
  {
    if rows != [] {
      var n := |rows| - 1;
      CountsFromPaths(rows[..n], r);
      SnocPrefix(rows, n);
      assert rows[..n + 1] == rows;
      var last := [rows[n]];
      assert multiset(rows) == multiset(rows[..n]) + multiset(last);
    }
  }

  /** There is one current database: an incremental build and a rebuild give the
      same records and, but for their order, the same rows. */
  lemma IncrementalIsRebuild(env: Env, disk: Disk, before: Database, incremental: Database, rebuilt: Database)
    requires CollisionFree(env) && Agrees(env, before)
    requires forall p :: PathBuilt(env, disk, before, incremental, p)
    requires forall p :: PathBuilt(env, disk, NOTHING, rebuilt, p)
    ensures incremental.files == rebuilt.files && multiset(incremental.rows) == multiset(rebuilt.rows)
  {
    BuildMakesCurrent(env, disk, before, incremental);
    NothingAgrees(env);
    BuildMakesCurrent(env, disk, NOTHING, rebuilt);
    CurrentIsUnique(env, disk, incremental, rebuilt);
  }

  lemma CurrentIsUnique(env: Env, disk: Disk, a: Database, b: Database)
    requires Current(env, disk, a) && Current(env, disk, b)
    ensures a.files == b.files && multiset(a.rows) == multiset(b.rows)
  {
    hide RowsFor;
    hide FileRows;
    forall p
      ensures SameFor(a, b, p)
    {
      assert PathCurrent(env, disk, a, p) && PathCurrent(env, disk, b, p);
    }
    assert forall p :: SameFor(a, b, p) ==> (p in a.files <==> p in b.files);
    forall r: Row
      ensures multiset(a.rows)[r] == multiset(b.rows)[r]
    {
      CountsFromPaths(a.rows, r);
      CountsFromPaths(b.rows, r);
      assert SameFor(a, b, r.path);
    }
  }

  /** After a build nothing looks stale as long as nothing changes on disk. */
  lemma CurrentLooksFresh(env: Env, disk: Disk, db: Database)
    requires Current(env, disk, db)
    ensures LooksFresh(env, disk, db.files)
  {
    hide RowsFor;
    hide FileRows;
    forall p
      ensures (p in db.files ==> Indexable(env, disk, p))
        && (Indexable(env, disk, p) ==> TimeMatches(disk, db.files, p))
    {
      assert PathCurrent(env, disk, db, p);
    }
  }

  /** A database that looks fresh is current exactly when no file changed without its time changing. */
  lemma FreshIsCurrentIff(env: Env, disk: Disk, db: Database)
    requires CollisionFree(env) && Agrees(env, db) && LooksFresh(env, disk, db.files)
    ensures Current(env, disk, db) <==>
      forall p :: Indexable(env, disk, p) ==> p in db.files && db.files[p].sha == env.hash(disk[p].content)
  {
    hide RowsFor;
    hide FileRows;
    if Current(env, disk, db) {
      forall p | Indexable(env, disk, p)
        ensures p in db.files && db.files[p].sha == env.hash(disk[p].content)
      {
        assert PathCurrent(env, disk, db, p);
      }
    }
    if forall p :: Indexable(env, disk, p) ==> p in db.files && db.files[p].sha == env.hash(disk[p].content) {
      forall p
        ensures PathCurrent(env, disk, db, p)
      {
        assert PathAgrees(env, db, p);
        if Indexable(env, disk, p) {
          assert TimeMatches(disk, db.files, p);
          UnchangedIsCurrent(env, disk, db, p);
        }
      }
    }
  }

  lemma {:induction false} NoneChanged(env: Env, disk: Disk, db: Database, paths: seq<string>)
    requires Current(env, disk, db)
    ensures CountChanged(env, disk, db.files, paths) == 0
  {
    hide RowsFor;
    hide FileRows;
    if paths != [] {
      NoneChanged(env, disk, db, paths[..|paths| - 1]);
      assert PathCurrent(env, disk, db, paths[|paths| - 1]);
    }
  }

  /** Any number of builds, with the disk changed in any way between them, leaves a
      database that is current for the disk of the last build. */
  ghost predicate Builds(env: Env, disks: seq<Disk>, dbs: seq<Database>) {
    && |dbs| == |disks| + 1 && dbs[0] == NOTHING
    && forall k, p {:trigger PathBuilt(env, disks[k], dbs[k], dbs[k + 1], p)} :: 0 <= k < |disks| ==>
         PathBuilt(env, disks[k], dbs[k], dbs[k + 1], p)
  }

  lemma {:induction false} EveryBuildIsCurrent(env: Env, disks: seq<Disk>, dbs: seq<Database>, k: nat)
    requires CollisionFree(env) && Builds(env, disks, dbs) && k < |disks|
    ensures Current(env, disks[k], dbs[k + 1])
  {
    hide PathBuilt;
    if k == 0 {
      NothingAgrees(env);
    } else {
      EveryBuildIsCurrent(env, disks, dbs, k - 1);
      CurrentAgrees(env, disks[k - 1], dbs[k]);
    }
    BuildMakesCurrent(env, disks[k], dbs[k], dbs[k + 1]);
  }

  /** A file rewritten within the resolution of its time still looks fresh, and is not current. */
  lemma SameTimeHidesChange(env: Env, disk: Disk, db: Database, p: string, content: seq<Byte>)
    requires CollisionFree(env) && Current(env, disk, db) && Indexable(env, disk, p)
    requires content != disk[p].content && |content| <= MAX_INDEXED_FILE_BYTES
    ensures var now := disk[p := DiskFile(content, disk[p].mtime)];
      LooksFresh(env, now, db.files) && !Current(env, now, db)
  {
    hide RowsFor;
    hide FileRows;
    var now := disk[p := DiskFile(content, disk[p].mtime)];
    CurrentLooksFresh(env, disk, db);
    assert forall q :: Indexable(env, now, q) <==> Indexable(env, disk, q);
    assert forall q :: Indexable(env, disk, q) ==> TimeMatches(disk, db.files, q) && now[q].mtime == disk[q].mtime;
    assert PathCurrent(env, disk, db, p);
    assert env.hash(content) != env.hash(disk[p].content);
    assert !PathCurrent(env, now, db, p);
  }

  // --------------------------------------------------------------------- which files have rows

  /** After a build exactly the files of a known language and at most 512 KiB are
      recorded, and other paths have no row. */
  lemma RecordedIff(env: Env, disk: Disk, db: Database, p: string)
    requires Current(env, disk, db)
    ensures p in db.files <==> p in disk && env.language(p) != Other && |disk[p].content| <= 524288
    ensures p in db.files ==>
      db.files[p] == FileRow(env.hash(disk[p].content), |disk[p].content|, disk[p].mtime, env.language(p))
    ensures p !in db.files ==> RowsFor(db.rows, p) == []
  {
    hide RowsFor;
    hide FileRows;
    assert PathCurrent(env, disk, db, p);
  }

  function ChunksOf(rows: seq<Row>): seq<Chunk> {
    if rows == [] then []
    else ChunksOf(rows[..|rows| - 1]) + if rows[|rows| - 1].ChunkRow? then [rows[|rows| - 1].chunk] else []
  }

  function HarvestOf(rows: seq<Row>): seq<string> {
    if rows == [] then []
    else HarvestOf(rows[..|rows| - 1]) + if rows[|rows| - 1].HarvestRow? then [rows[|rows| - 1].data] else []
  }

  lemma {:induction false} ChunkRowsOf(rows: seq<Row>, p: string, chunks: seq<Chunk>)
    requires rows == ChunkRows(p, chunks)
    ensures ChunksOf(rows) == chunks && HarvestOf(rows) == []
    decreases |rows|
  {
    if rows != [] {
      var n := |rows| - 1;
      ChunkRowsOf(rows[..n], p, chunks[..n]);
      SnocPrefix(chunks, n);
    }
  }

  lemma {:induction false} HarvestRowsOf(front: seq<Row>, p: string, data: seq<string>)
    ensures ChunksOf(front + HarvestRows(p, data)) == ChunksOf(front)
    ensures HarvestOf(front + HarvestRows(p, data)) == HarvestOf(front) + data
    decreases |data|
  {
    var rows := front + HarvestRows(p, data);
    if data == [] {
      assert rows == front;
    } else {
      var n := |data| - 1;
      var shorter := front + HarvestRows(p, data[..n]);
      HarvestRowsOf(front, p, data[..n]);
      assert rows == shorter + [HarvestRow(p, data[n])];
      OneMoreRow(shorter, HarvestRow(p, data[n]));
      Reassociate(HarvestOf(front), data[..n], [data[n]]);
      SnocPrefix(data, n);
      assert data[..n + 1] == data;
    }
  }

  lemma OneMoreRow(rows: seq<Row>, row: Row)
    ensures ChunksOf(rows + [row]) == ChunksOf(rows) + if row.ChunkRow? then [row.chunk] else []
    ensures HarvestOf(rows + [row]) == HarvestOf(rows) + if row.HarvestRow? then [row.data] else []
  {
    assert (rows + [row])[..|rows|] == rows;
  }

  /** After a build a recorded file's rows are the chunks of its lines, whose texts joined
      are the lines joined, and what was harvested from its text. */
  lemma RowsShowFile(env: Env, disk: Disk, db: Database, p: string)
    requires Current(env, disk, db) && Indexable(env, disk, p)
    ensures var rows, text := RowsFor(db.rows, p), env.decode(disk[p].content);
      && ChunksOf(rows) == Chunks(TextLines(text))
      && Join(ChunkTexts(ChunksOf(rows))) == Join(TextLines(text))
      && HarvestOf(rows) == env.harvest(p, env.language(p), text)
  {
    hide RowsFor;
    assert PathCurrent(env, disk, db, p);
    var text := env.decode(disk[p].content);
    var chunks := Chunks(TextLines(text));
    ChunkRowsOf(ChunkRows(p, chunks), p, chunks);
    HarvestRowsOf(ChunkRows(p, chunks), p, env.harvest(p, env.language(p), text));
    ChunksTile(TextLines(text));
  }
}

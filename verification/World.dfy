/** Two replicas and the journal as a whole, and what one run may make of them. */
module Worlds {
  import opened Options
  import opened RedBlack
  import opened SyncRules

  type Files = map<Hash, File>
  type Journal = Option<map<Hash, Record>>

  datatype World = World(local: Files, remote: Files, journal: Journal)

  function FilesOf(w: World, replica: Replica): Files { if replica == LOCAL then w.local else w.remote }

  /** What a run meets outside: which files its listings come to see, how its pushes end, which backups and removals
      work, the inodes of new files, and the names of conflict copies. */
  datatype Weather = Weather(
    seesLocal: Hash -> bool, seesRemote: Hash -> bool,
    fromLocal: Hash -> Push, fromRemote: Hash -> Push, backs: Hash -> bool, removes: Hash -> bool,
    newLocal: Hash -> nat, newRemote: Hash -> nat, copyName: Hash -> Hash)

  function At<V>(m: map<Hash, V>, k: Hash): Option<V> { if k in m then Some(m[k]) else None }

  function RowAt(j: Journal, k: Hash): Option<Record> { if j.Some? then At(j.value, k) else None }

  /** Some row of the journal has this inode. */
  predicate InodeKnown(j: Journal, inode: nat) { j.Some? && exists k | k in j.value :: j.value[k].inode == inode }

  function Renamed(j: Journal, f: Option<File>): bool { f.Some? && InodeKnown(j, f.value.inode) }

  function SpotAt(w: World, k: Hash): Spot {
    Spot(At(w.local, k), At(w.remote, k), w.journal.Some?, RowAt(w.journal, k))
  }

  function LuckAt(w: World, weather: Weather, k: Hash): Luck {
    Luck(weather.seesLocal(k), weather.seesRemote(k), weather.fromLocal(k), weather.fromRemote(k), weather.backs(k),
         weather.removes(k), weather.newLocal(k), weather.newRemote(k), Renamed(w.journal, At(w.local, k)))
  }

  function RunAt(w: World, weather: Weather, copies: bool, k: Hash): Outcome {
    Run(SpotAt(w, k), LuckAt(w, weather, k), copies)
  }

  function VerdictAt(w: World, weather: Weather, copies: bool, k: Hash): (Option<Entry>, Option<Entry>) {
    Verdict(SpotAt(w, k), LuckAt(w, weather, k), copies)
  }

  /** What update detection makes of a path of one replica, if the listing shows it. */
  function EntryAt(w: World, weather: Weather, replica: Replica, k: Hash): Option<Entry> {
    var luck := LuckAt(w, weather, k);
    var v := View(SpotAt(w, k), luck);
    Seen(replica, if replica == LOCAL then v.l else v.r, v, luck.renamed)
  }

  predicate Sees(weather: Weather, replica: Replica, k: Hash) {
    if replica == LOCAL then weather.seesLocal(k) else weather.seesRemote(k)
  }

  function Paths(w: World): set<Hash> {
    w.local.Keys + w.remote.Keys + (if w.journal.Some? then w.journal.value.Keys else {})
  }

  /** Conflict copies get names of their own, which nothing has yet. */
  ghost predicate FreshNames(paths: set<Hash>, copyName: Hash -> Hash) {
    && (forall k | k in paths :: copyName(k) !in paths)
    && (forall k, k' | k in paths && k' in paths && copyName(k) == copyName(k') :: k == k')
  }

  ghost predicate IsName(paths: set<Hash>, copyName: Hash -> Hash, k: Hash) {
    exists p | p in paths :: copyName(p) == k
  }

  /** `w'` is what a run makes of `w`: at every path what the rules say, conflict copies under their names, and
      nothing else. */
  ghost predicate RunOf(w: World, w': World, weather: Weather, copies: bool) {
    && (forall k | k in Paths(w) :: SpotAt(w', k) == RunAt(w, weather, copies, k).spot)
    && (forall k | k in Paths(w) :: At(w'.local, weather.copyName(k)) == RunAt(w, weather, copies, k).localCopy)
    && (forall k | k in Paths(w) :: At(w'.remote, weather.copyName(k)) == RunAt(w, weather, copies, k).remoteCopy)
    && w'.journal.Some? && w'.journal.value.Keys <= Paths(w)
    && (forall k | k in w'.local.Keys + w'.remote.Keys :: k in Paths(w) || IsName(Paths(w), weather.copyName, k))
  }
}

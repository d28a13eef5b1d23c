/** What runs guarantee about whole replicas, and over whole histories of runs and edits. */
module WorldLaws {
  import opened Options
  import opened RedBlack
  import opened SyncRules
  import opened SyncLaws
  import opened Worlds

  /** Every operation of the run works. */
  ghost predicate Lucky(w: World, weather: Weather) { forall k | k in Paths(w) :: Fortunate(LuckAt(w, weather, k)) }

  ghost predicate SoundWorld(w: World) {
    forall k | k in Paths(w) :: Sound(SpotAt(w, k), Renamed(w.journal, At(w.local, k)))
  }

  /** Equal replicas, and a journal of exactly what they hold. */
  ghost predicate Converged(w: World) { w.journal.Some? && forall k | k in Paths(w) :: InSync(SpotAt(w, k)) }

  /** A run of `w` to `w'`, with names for its conflict copies. */
  ghost predicate Ran(w: World, w': World, weather: Weather, copies: bool) {
    RunOf(w, w', weather, copies) && FreshNames(Paths(w), weather.copyName)
  }

  // ---------- convergence ----------

  /** A path of the world after a run was a path before, or is the name of a conflict copy that was made. */
  lemma NewPaths(w: World, w': World, weather: Weather, copies: bool, k: Hash)
    requires Ran(w, w', weather, copies) && k in Paths(w') && k !in Paths(w)
    ensures exists p :: p in Paths(w) && weather.copyName(p) == k && MadeCopy(w, weather, copies, p)
  {
    var p :| p in Paths(w) && weather.copyName(p) == k;
    assert At(w'.local, k) == RunAt(w, weather, copies, p).localCopy;
    assert At(w'.remote, k) == RunAt(w, weather, copies, p).remoteCopy;
    assert MadeCopy(w, weather, copies, p);
  }

  ghost predicate MadeCopy(w: World, weather: Weather, copies: bool, p: Hash) {
    RunAt(w, weather, copies, p).localCopy.Some? || RunAt(w, weather, copies, p).remoteCopy.Some?
  }

  /** Without conflict copies there are no new paths. */
  lemma NoNewPaths(w: World, w': World, weather: Weather)
    requires Ran(w, w', weather, false)
    ensures Paths(w') <= Paths(w)
  {
    forall k | k in Paths(w') ensures k in Paths(w) {
      if k !in Paths(w) {
        NewPaths(w, w', weather, false, k);
        var p :| p in Paths(w) && weather.copyName(p) == k && MadeCopy(w, weather, false, p);
        NoCopies(SpotAt(w, p), LuckAt(w, weather, p));
      }
    }
  }

  lemma PathConverges(w: World, w': World, weather: Weather, copies: bool, k: Hash)
    requires RunOf(w, w', weather, copies) && Lucky(w, weather) && SoundWorld(w) && k in Paths(w)
    ensures InSync(SpotAt(w', k))
  {
    var s, luck := SpotAt(w, k), LuckAt(w, weather, k);
    assert Fortunate(luck) && Sound(s, luck.renamed);
    Converges(s, luck, copies, luck, copies);
    assert SpotAt(w', k) == Run(s, luck, copies).spot;
  }

  /** An error-free run from a sound world, conflict copies off, makes the replicas equal and the journal exact. */
  lemma RunConverges(w: World, w': World, weather: Weather)
    requires Ran(w, w', weather, false) && Lucky(w, weather) && SoundWorld(w)
    ensures Converged(w')
    ensures w'.local.Keys == w'.remote.Keys == w'.journal.value.Keys
    ensures forall k | k in w'.local ::
              w'.local[k].content == w'.remote[k].content && w'.local[k].mtime == w'.remote[k].mtime
    ensures forall k | k in w'.local :: w'.journal.value[k] == Record(w'.local[k].mtime, w'.local[k].inode)
  {
    NoNewPaths(w, w', weather);
    forall k | k in Paths(w') ensures InSync(SpotAt(w', k)) {
      PathConverges(w, w', weather, false, k);
    }
    ConvergedMeans(w');
  }

  /** What a converged world looks like. */
  lemma ConvergedMeans(w: World)
    requires Converged(w)
    ensures w.local.Keys == w.remote.Keys == w.journal.value.Keys
    ensures forall k | k in w.local ::
              w.local[k].content == w.remote[k].content && w.local[k].mtime == w.remote[k].mtime
    ensures forall k | k in w.local :: w.journal.value[k] == Record(w.local[k].mtime, w.local[k].inode)
  {
    forall k | k in Paths(w) ensures k in w.local && k in w.remote && k in w.journal.value {
      assert InSync(SpotAt(w, k));
    }
    forall k | k in w.local
      ensures w.local[k].content == w.remote[k].content && w.local[k].mtime == w.remote[k].mtime
      ensures w.journal.value[k] == Record(w.local[k].mtime, w.local[k].inode)
    {
      assert InSync(SpotAt(w, k));
    }
  }

  /** The listings show every file, or miss a remote one whose local twin then cannot be removed. */
  ghost predicate AllShown(w: World, weather: Weather) {
    forall k | k in Paths(w) :: weather.seesLocal(k) && (weather.seesRemote(k) || !weather.removes(k))
  }

  /** A run of a converged world changes nothing, whatever else happens to it, exactly if its listings show enough. */
  lemma ConvergedStays(w: World, w': World, weather: Weather, copies: bool)
    requires Converged(w) && Ran(w, w', weather, copies)
    ensures w' == w <==> AllShown(w, weather)
  {
    ConvergedMeans(w);
    forall k | k in Paths(w)
      ensures SpotAt(w', k) == SpotAt(w, k) <==> Shown(SpotAt(w, k), LuckAt(w, weather, k))
      ensures At(w'.local, weather.copyName(k)) == None && At(w'.remote, weather.copyName(k)) == None
    {
      StaysAt(w, w', weather, copies, k);
    }
    if AllShown(w, weather) { SameWorld(w, w', weather); }
  }

  lemma StaysAt(w: World, w': World, weather: Weather, copies: bool, k: Hash)
    requires RunOf(w, w', weather, copies) && k in Paths(w) && InSync(SpotAt(w, k))
    ensures SpotAt(w', k) == SpotAt(w, k) <==> Shown(SpotAt(w, k), LuckAt(w, weather, k))
    ensures At(w'.local, weather.copyName(k)) == None && At(w'.remote, weather.copyName(k)) == None
  {
    InSyncStays(SpotAt(w, k), LuckAt(w, weather, k), copies);
    assert SpotAt(w', k) == RunAt(w, weather, copies, k).spot;
    assert At(w'.local, weather.copyName(k)) == RunAt(w, weather, copies, k).localCopy;
    assert At(w'.remote, weather.copyName(k)) == RunAt(w, weather, copies, k).remoteCopy;
  }

  lemma SameWorld(w: World, w': World, weather: Weather)
    requires w.journal.Some? && w'.journal.Some? && w'.journal.value.Keys <= Paths(w)
    requires forall k | k in w'.local.Keys + w'.remote.Keys :: k in Paths(w) || IsName(Paths(w), weather.copyName, k)
    requires forall k | k in Paths(w) :: SpotAt(w', k) == SpotAt(w, k)
    requires forall k | k in Paths(w) ::
               At(w'.local, weather.copyName(k)) == None && At(w'.remote, weather.copyName(k)) == None
    ensures w' == w
  {
    forall k
      ensures At(w'.local, k) == At(w.local, k) && At(w'.remote, k) == At(w.remote, k)
      ensures At(w'.journal.value, k) == At(w.journal.value, k)
    {
      if k in Paths(w) {
        assert SpotAt(w', k) == SpotAt(w, k);
        assert RowAt(w'.journal, k) == RowAt(w.journal, k);
      } else if IsName(Paths(w), weather.copyName, k) {
        var p :| p in Paths(w) && weather.copyName(p) == k;
      }
    }
    SameMap(w'.local, w.local);
    SameMap(w'.remote, w.remote);
    SameMap(w'.journal.value, w.journal.value);
  }

  lemma SameMap<V>(m: map<Hash, V>, n: map<Hash, V>)
    requires forall k :: At(m, k) == At(n, k)
    ensures m == n
  {
    forall k ensures k in m <==> k in n { assert At(m, k) == At(n, k); }
    forall k | k in m ensures m[k] == n[k] { assert At(m, k) == At(n, k); }
  }

  /** One error-free run settles a sound world; the next run is idle exactly if its listings show enough. */
  lemma SecondRunIsIdle(w: World, w': World, w'': World, weather: Weather, weather': Weather, copies': bool)
    requires Ran(w, w', weather, false) && Lucky(w, weather) && SoundWorld(w)
    requires Ran(w', w'', weather', copies')
    ensures w'' == w' <==> AllShown(w', weather')
  {
    RunConverges(w, w', weather);
    ConvergedStays(w', w'', weather', copies');
  }

  // ---------- convergence with conflict copies ----------

  /** A copy that an error-free run made stands alone: one replica has it, and the journal does not know it. */
  lemma CopiesStandAlone(w: World, w': World, weather: Weather, copies: bool, k: Hash)
    requires Ran(w, w', weather, copies) && Lucky(w, weather) && SoundWorld(w) && k in Paths(w') && k !in Paths(w)
    ensures var s := SpotAt(w', k);
            (s.l.None? || s.r.None?) && !Known(s) && !Linked(s.l) && !Linked(s.r)
  {
    NewPaths(w, w', weather, copies, k);
    var p :| p in Paths(w) && weather.copyName(p) == k && MadeCopy(w, weather, copies, p);
    var s, luck := SpotAt(w, p), LuckAt(w, weather, p);
    assert Sound(s, luck.renamed);
    CopiesOneSided(s, luck, copies);
    assert At(w'.local, k) == Run(s, luck, copies).localCopy && At(w'.remote, k) == Run(s, luck, copies).remoteCopy;
  }

  /** With conflict copies on, an error-free run from a sound world settles every path that was there, and leaves a
      sound world; the next error-free run carries the copies over, and then the replicas are equal. */
  lemma TwoRunsConverge(w: World, w': World, w'': World, weather: Weather, weather': Weather, copies: bool,
                        copies': bool)
    requires Ran(w, w', weather, copies) && Lucky(w, weather) && SoundWorld(w)
    requires Ran(w', w'', weather', copies') && Lucky(w', weather')
    ensures forall k | k in Paths(w) :: InSync(SpotAt(w', k))
    ensures Converged(w'')
  {
    forall k | k in Paths(w) ensures InSync(SpotAt(w', k)) { PathConverges(w, w', weather, copies, k); }
    forall k | k in Paths(w')
      ensures InSync(SpotAt(w', k)) || SpotAt(w', k).l.None? || SpotAt(w', k).r.None?
      ensures Sound(SpotAt(w', k), Renamed(w'.journal, At(w'.local, k)))
    {
      if k !in Paths(w) { CopiesStandAlone(w, w', weather, copies, k); }
    }
    forall k | k in Paths(w'') ensures InSync(SpotAt(w'', k)) {
      NoMoreCopies(w', w'', weather', copies', k);
      PathConverges(w', w'', weather', copies', k);
    }
  }

  /** Where nothing is in conflict no copies are made, and no new paths appear. */
  lemma NoMoreCopies(w: World, w': World, weather: Weather, copies: bool, k: Hash)
    requires Ran(w, w', weather, copies) && k in Paths(w')
    requires forall p | p in Paths(w) :: InSync(SpotAt(w, p)) || SpotAt(w, p).l.None? || SpotAt(w, p).r.None?
    ensures k in Paths(w)
  {
    if k !in Paths(w) {
      NewPaths(w, w', weather, copies, k);
      var p :| p in Paths(w) && weather.copyName(p) == k && MadeCopy(w, weather, copies, p);
      NoCopyHere(w, weather, copies, p);
    }
  }

  lemma NoCopyHere(w: World, weather: Weather, copies: bool, p: Hash)
    requires InSync(SpotAt(w, p)) || SpotAt(w, p).l.None? || SpotAt(w, p).r.None?
    ensures !MadeCopy(w, weather, copies, p)
  {
    CopiesOneSided(SpotAt(w, p), LuckAt(w, weather, p), copies);
  }

  // ---------- deletions over histories ----------

  function Other(replica: Replica): Replica { if replica == LOCAL then REMOTE else LOCAL }

  /** The listing of its replica shows the file. */
  predicate Listed(w: World, weather: Weather, replica: Replica, k: Hash) {
    k in FilesOf(w, replica) && Sees(weather, replica, k)
  }

  /** A file with a single link that is as the journal remembers it, and which the other listing does not show. */
  predicate Deletes(w: World, weather: Weather, k: Hash, victim: Replica) {
    && Listed(w, weather, victim, k) && FilesOf(w, victim)[k].nlink <= 1 && !Listed(w, weather, Other(victim), k)
    && w.journal.Some? && k in w.journal.value && FilesOf(w, victim)[k].mtime <= w.journal.value[k].mtime
    && weather.removes(k)
  }

  /** In whole worlds: a file vanishes from a replica exactly when the run deletes or displaces it. */
  lemma DeletesExactly(w: World, w': World, weather: Weather, copies: bool, k: Hash, victim: Replica)
    requires RunOf(w, w', weather, copies) && k in Paths(w)
    ensures k in FilesOf(w, victim) && k !in FilesOf(w', victim) <==>
              || Deletes(w, weather, k, victim)
              || Displaces(SpotAt(w, k), LuckAt(w, weather, k), copies, Other(victim))
  {
    var s, luck := SpotAt(w, k), LuckAt(w, weather, k);
    assert SpotAt(w', k) == Run(s, luck, copies).spot;
    VanishesExactly(s, luck, copies);
    DeletesMeans(w, weather, k);
  }

  lemma DeletesMeans(w: World, weather: Weather, k: Hash)
    ensures var s, luck := SpotAt(w, k), LuckAt(w, weather, k);
            && (Deletes(w, weather, k, LOCAL) <==> Removes(s, luck, LOCAL))
            && (Deletes(w, weather, k, REMOTE) <==> Removes(s, luck, REMOTE))
  {
  }

  /** A history alternates, in any way, between runs, each with conflict copies on or off, and edits, which leave the
      journal alone. */
  datatype Event = Sync(weather: Weather, copies: bool) | Edited

  ghost predicate Happens(w: World, e: Event, w': World) {
    match e
    case Sync(weather, copies) => Ran(w, w', weather, copies)
    case Edited => w'.journal == w.journal
  }

  ghost predicate History(worlds: seq<World>, events: seq<Event>) {
    && |worlds| == |events| + 1 && worlds[0].journal == None
    && forall i | 0 <= i < |events| :: Happens(worlds[i], events[i], worlds[i + 1])
  }

  /** From world `j` on to world `n` the replica does not have the path. */
  ghost predicate Absent(worlds: seq<World>, j: nat, n: nat, k: Hash, replica: Replica) {
    forall i | j <= i <= n && i < |worlds| :: k !in FilesOf(worlds[i], replica)
  }

  /** An edit before world `n` removed the path from one replica, and it has been absent there since. */
  ghost predicate UserRemoved(worlds: seq<World>, events: seq<Event>, n: nat, k: Hash, replica: Replica) {
    exists j :: 0 <= j < n && j < |events| && j + 1 < |worlds| && events[j] == Edited
                && k in FilesOf(worlds[j], replica) && Absent(worlds, j + 1, n, k, replica)
  }

  /** A run before world `n` moved the local file aside for a remote one whose push then failed, and the path has been
      absent from the local replica since. */
  ghost predicate RunDisplaced(worlds: seq<World>, events: seq<Event>, n: nat, k: Hash) {
    exists j :: 0 <= j < n && j < |events| && j + 1 < |worlds| && DisplacedBy(worlds[j], events[j], k, REMOTE)
                && Absent(worlds, j + 1, n, k, LOCAL)
  }

  ghost predicate DisplacedBy(w: World, e: Event, k: Hash, winner: Replica) {
    e.Sync? && Displaces(SpotAt(w, k), LuckAt(w, e.weather, k), e.copies, winner)
  }

  /** A journalled path is still on both replicas, or an edit removed it, or a run displaced the local file. */
  ghost predicate Accounted(worlds: seq<World>, events: seq<Event>, n: nat, k: Hash) {
    n < |worlds| && (worlds[n].journal.Some? && k in worlds[n].journal.value ==>
      && (k in worlds[n].local || UserRemoved(worlds, events, n, k, LOCAL) || RunDisplaced(worlds, events, n, k))
      && (k in worlds[n].remote || UserRemoved(worlds, events, n, k, REMOTE)))
  }

  lemma {:induction false} JournalledWasThere(worlds: seq<World>, events: seq<Event>, n: nat, k: Hash)
    requires History(worlds, events) && n <= |events|
    ensures Accounted(worlds, events, n, k)
  {
    if n == 0 {
      AccountedFirst(worlds, events, k);
    } else {
      JournalledWasThere(worlds, events, n - 1, k);
      AccountedNext(worlds, events, n - 1, k);
    }
  }

  lemma AccountedFirst(worlds: seq<World>, events: seq<Event>, k: Hash)
    requires History(worlds, events)
    ensures Accounted(worlds, events, 0, k)
  {
  }

  lemma AccountedNext(worlds: seq<World>, events: seq<Event>, n: nat, k: Hash)
    requires History(worlds, events) && n < |events| && Accounted(worlds, events, n, k)
    ensures Accounted(worlds, events, n + 1, k)
  {
    HappensAt(worlds, events, n);
    if events[n].Sync? {
      AccountedRun(worlds, events, n, k);
    } else {
      AccountedEdit(worlds, events, n, k);
    }
  }

  lemma AccountedRun(worlds: seq<World>, events: seq<Event>, n: nat, k: Hash)
    requires |worlds| == |events| + 1 && n < |events| && events[n].Sync? && Happens(worlds[n], events[n], worlds[n + 1])
    requires Accounted(worlds, events, n, k)
    ensures Accounted(worlds, events, n + 1, k)
  {
    if k in worlds[n + 1].journal.value {
      RunRows(worlds[n], worlds[n + 1], events[n].weather, events[n].copies, k);
      if k !in worlds[n + 1].remote { StillRemoved(worlds, events, n, k, REMOTE); }
      if k !in worlds[n + 1].local {
        assert DisplacedBy(worlds[n], events[n], k, REMOTE) && Absent(worlds, n + 1, n + 1, k, LOCAL);
      }
    }
  }

  lemma AccountedEdit(worlds: seq<World>, events: seq<Event>, n: nat, k: Hash)
    requires |worlds| == |events| + 1 && n < |events| && events[n] == Edited
    requires worlds[n + 1].journal == worlds[n].journal
    requires Accounted(worlds, events, n, k)
    ensures Accounted(worlds, events, n + 1, k)
  {
    if k !in worlds[n + 1].remote { EditOrBefore(worlds, events, n, k, REMOTE); }
    if k !in worlds[n + 1].local { EditOrBefore(worlds, events, n, k, LOCAL); }
  }

  /** After a run a journalled path is missing on the local replica only if the run displaced it, and on the remote one
      only if it was journalled and missing before. */
  lemma RunRows(w: World, w': World, weather: Weather, copies: bool, k: Hash)
    requires Ran(w, w', weather, copies) && k in w'.journal.value
    ensures k !in w'.local ==> Displaces(SpotAt(w, k), LuckAt(w, weather, k), copies, REMOTE)
    ensures k !in w'.remote ==> w.journal.Some? && k in w.journal.value && k !in w.remote
  {
    var s, luck := SpotAt(w, k), LuckAt(w, weather, k);
    assert SpotAt(w', k) == Run(s, luck, copies).spot;
    RowsMeanBoth(s, luck, copies);
    RemovalExactly(View(s, luck), luck.renamed, copies);
  }

  /** What an edit removed before remains so while the path stays absent. */
  lemma StillRemoved(worlds: seq<World>, events: seq<Event>, n: nat, k: Hash, replica: Replica)
    requires |worlds| == |events| + 1 && n < |events| && k !in FilesOf(worlds[n + 1], replica)
    requires UserRemoved(worlds, events, n, k, replica)
    ensures UserRemoved(worlds, events, n + 1, k, replica)
  {
    var j :| 0 <= j < n && events[j] == Edited && k in FilesOf(worlds[j], replica)
        && Absent(worlds, j + 1, n, k, replica);
    StillAbsent(worlds, j + 1, n, k, replica);
  }

  /** And what a run displaced. */
  lemma StillDisplaced(worlds: seq<World>, events: seq<Event>, n: nat, k: Hash)
    requires |worlds| == |events| + 1 && n < |events| && k !in FilesOf(worlds[n + 1], LOCAL)
    requires RunDisplaced(worlds, events, n, k)
    ensures RunDisplaced(worlds, events, n + 1, k)
  {
    var j :| 0 <= j < n && DisplacedBy(worlds[j], events[j], k, REMOTE) && Absent(worlds, j + 1, n, k, LOCAL);
    StillAbsent(worlds, j + 1, n, k, LOCAL);
  }

  lemma StillAbsent(worlds: seq<World>, j: nat, n: nat, k: Hash, replica: Replica)
    requires n + 1 < |worlds| && k !in FilesOf(worlds[n + 1], replica) && Absent(worlds, j, n, k, replica)
    ensures Absent(worlds, j, n + 1, k, replica)
  {
  }

  /** After an edit the path is absent because of that edit, or was before. */
  lemma EditOrBefore(worlds: seq<World>, events: seq<Event>, n: nat, k: Hash, replica: Replica)
    requires |worlds| == |events| + 1 && n < |events| && events[n] == Edited && k !in FilesOf(worlds[n + 1], replica)
    ensures k in FilesOf(worlds[n], replica) ==> UserRemoved(worlds, events, n + 1, k, replica)
    ensures UserRemoved(worlds, events, n, k, replica) ==> UserRemoved(worlds, events, n + 1, k, replica)
    ensures replica == LOCAL && RunDisplaced(worlds, events, n, k) ==> RunDisplaced(worlds, events, n + 1, k)
  {
    if UserRemoved(worlds, events, n, k, replica) { StillRemoved(worlds, events, n, k, replica); }
    if replica == LOCAL && RunDisplaced(worlds, events, n, k) { StillDisplaced(worlds, events, n, k); }
    assert Absent(worlds, n + 1, n + 1, k, replica);
  }

  /** The file was moved to its conflict copy. */
  ghost predicate MovedAside(w: World, w': World, e: Event, k: Hash, replica: Replica) {
    e.Sync? && k in FilesOf(w, replica) && At(FilesOf(w', replica), e.weather.copyName(k)) == At(FilesOf(w, replica), k)
  }

  /** The file was there, and the listing of its replica missed it. */
  ghost predicate NotListed(w: World, e: Event, k: Hash, replica: Replica) {
    e.Sync? && k in FilesOf(w, replica) && !Sees(e.weather, replica, k)
  }

  /** In every history that starts without a journal, with conflict copies on or off in each run, and whatever fails:
      when a file vanishes in a run, it is in its conflict copy, or the user had removed it from the other replica,
      where it has been absent since. There are two exceptions: the listing of this run missed the file on the other
      replica; and a remote file may follow a local one that an earlier run displaced. */
  lemma DeletionsWereAsked(worlds: seq<World>, events: seq<Event>, n: nat, k: Hash, victim: Replica)
    requires History(worlds, events) && n < |events| && events[n].Sync?
    requires k in FilesOf(worlds[n], victim) && k !in FilesOf(worlds[n + 1], victim)
    ensures || MovedAside(worlds[n], worlds[n + 1], events[n], k, victim)
            || UserRemoved(worlds, events, n, k, Other(victim))
            || NotListed(worlds[n], events[n], k, Other(victim))
            || (victim == REMOTE && RunDisplaced(worlds, events, n, k))
  {
    JournalledWasThere(worlds, events, n, k);
    HappensAt(worlds, events, n);
    VanishedInRun(worlds[n], worlds[n + 1], events[n], k, victim);
  }

  lemma HappensAt(worlds: seq<World>, events: seq<Event>, n: nat)
    requires History(worlds, events) && n < |events|
    ensures Happens(worlds[n], events[n], worlds[n + 1])
  {
  }

  /** What vanishes in a run was moved aside, or was journalled and gone from the other replica, or missed there. */
  lemma VanishedInRun(w: World, w': World, e: Event, k: Hash, victim: Replica)
    requires e.Sync? && Happens(w, e, w') && k in FilesOf(w, victim) && k !in FilesOf(w', victim)
    ensures || MovedAside(w, w', e, k, victim) || NotListed(w, e, k, Other(victim))
            || (w.journal.Some? && k in w.journal.value && k !in FilesOf(w, Other(victim)))
  {
    DeletesExactly(w, w', e.weather, e.copies, k, victim);
    if DisplacedBy(w, e, k, Other(victim)) { DisplacedAside(w, w', e, k, victim); }
  }

  lemma DisplacedAside(w: World, w': World, e: Event, k: Hash, victim: Replica)
    requires e.Sync? && RunOf(w, w', e.weather, e.copies) && k in FilesOf(w, victim)
    requires DisplacedBy(w, e, k, Other(victim))
    ensures MovedAside(w, w', e, k, victim)
  {
    DisplacedIsKept(SpotAt(w, k), LuckAt(w, e.weather, k), e.copies);
    assert At(w'.local, e.weather.copyName(k)) == RunAt(w, e.weather, e.copies, k).localCopy;
    assert At(w'.remote, e.weather.copyName(k)) == RunAt(w, e.weather, e.copies, k).remoteCopy;
  }

  /** While conflict copies are off, nothing is displaced. */
  lemma NoCopiesNoException(worlds: seq<World>, events: seq<Event>, n: nat, k: Hash)
    requires n <= |events| && forall i | 0 <= i < n && events[i].Sync? :: !events[i].copies
    ensures !RunDisplaced(worlds, events, n, k)
  {
    forall j | 0 <= j < n && j < |worlds| ensures !DisplacedBy(worlds[j], events[j], k, REMOTE) {
      if events[j].Sync? {
        var s, luck := SpotAt(worlds[j], k), LuckAt(worlds[j], events[j].weather, k);
        ConflictSides(View(s, luck), luck.renamed, events[j].copies);
      }
    }
  }

  // ---------- failed transfers ----------

  ghost predicate InodesApart(files: Files) {
    forall k, k' | k in files && k' in files && files[k].inode == files[k'].inode :: k == k'
  }

  /** New files get inodes of their own. */
  ghost predicate FreshInodes(w: World, weather: Weather) {
    && (forall k, k' | k in Paths(w) && k' in w.local :: weather.newLocal(k) != w.local[k'].inode)
    && (forall k, k' | k in Paths(w) && k' in Paths(w) && weather.newLocal(k) == weather.newLocal(k') :: k == k')
  }

  /** Files whose time could not be set are not older than the rows that stay or are written. */
  ghost predicate TimelyWeather(w: World, weather: Weather, copies: bool) {
    forall k | k in Paths(w) :: Timely(SpotAt(w, k), LuckAt(w, weather, k), copies)
  }

  /** Where the inode of a local file comes from: path `p` owned it before, or got it in the run. */
  ghost predicate InodeOf(w: World, weather: Weather, p: Hash, inode: nat) {
    p in Paths(w) && (inode == weather.newLocal(p) || (p in w.local && inode == w.local[p].inode))
  }

  lemma OneOwner(w: World, weather: Weather, p: Hash, q: Hash, inode: nat)
    requires FreshInodes(w, weather) && InodesApart(w.local) && InodeOf(w, weather, p, inode)
    requires InodeOf(w, weather, q, inode)
    ensures p == q
  {
  }

  /** Files and rows at old paths have an inode of that path, and so have conflict copies. */
  lemma InodesAtPath(w: World, w': World, weather: Weather, copies: bool, k: Hash)
    requires RunOf(w, w', weather, copies) && k in Paths(w)
    ensures k in w'.local ==> InodeOf(w, weather, k, w'.local[k].inode)
    ensures k in w'.journal.value ==> InodeOf(w, weather, k, w'.journal.value[k].inode)
    ensures weather.copyName(k) in w'.local ==> InodeOf(w, weather, k, w'.local[weather.copyName(k)].inode)
  {
    assert SpotAt(w', k) == RunAt(w, weather, copies, k).spot;
    assert At(w'.local, weather.copyName(k)) == RunAt(w, weather, copies, k).localCopy;
    InodesAfter(SpotAt(w, k), LuckAt(w, weather, k), copies);
  }

  /** A file that was moved aside does not share its inode with the one that took its place. */
  lemma CopyApart(w: World, w': World, weather: Weather, copies: bool, k: Hash)
    requires RunOf(w, w', weather, copies) && FreshInodes(w, weather) && k in Paths(w)
    requires k in w'.local && weather.copyName(k) in w'.local
    ensures w'.local[k].inode != w'.local[weather.copyName(k)].inode
  {
    assert SpotAt(w', k) == RunAt(w, weather, copies, k).spot;
    assert At(w'.local, weather.copyName(k)) == RunAt(w, weather, copies, k).localCopy;
    InodesAfter(SpotAt(w, k), LuckAt(w, weather, k), copies);
    assert k in w.local;
  }

  /** The path before the run that a local file after it comes from. */
  lemma Owner(w: World, w': World, weather: Weather, copies: bool, k: Hash) returns (p: Hash)
    requires Ran(w, w', weather, copies) && k in w'.local
    ensures InodeOf(w, weather, p, w'.local[k].inode) && (k == p || k == weather.copyName(p))
  {
    if k in Paths(w) {
      p := k;
    } else {
      p :| p in Paths(w) && weather.copyName(p) == k;
    }
    InodesAtPath(w, w', weather, copies, p);
  }

  lemma InodesStayApart(w: World, w': World, weather: Weather, copies: bool)
    requires Ran(w, w', weather, copies) && FreshInodes(w, weather) && InodesApart(w.local)
    ensures InodesApart(w'.local)
  {
    forall k, k' | k in w'.local && k' in w'.local && w'.local[k].inode == w'.local[k'].inode ensures k == k' {
      SameInode(w, w', weather, copies, k, k');
    }
  }

  lemma SameInode(w: World, w': World, weather: Weather, copies: bool, k: Hash, k': Hash)
    requires Ran(w, w', weather, copies) && FreshInodes(w, weather) && InodesApart(w.local)
    requires k in w'.local && k' in w'.local && w'.local[k].inode == w'.local[k'].inode
    ensures k == k'
  {
    var p := Owner(w, w', weather, copies, k);
    var p' := Owner(w, w', weather, copies, k');
    OneOwner(w, weather, p, p', w'.local[k].inode);
    if p in w'.local && weather.copyName(p) in w'.local { CopyApart(w, w', weather, copies, p); }
  }

  /** After a run no local file at an old path looks renamed, but those that the journal knows anyway. */
  lemma NothingRenamed(w: World, w': World, weather: Weather, copies: bool, k: Hash)
    requires Ran(w, w', weather, copies) && FreshInodes(w, weather) && InodesApart(w.local)
    requires k in Paths(w) && k !in w'.journal.value
    ensures !Renamed(w'.journal, At(w'.local, k))
  {
    if k in w'.local {
      InodesAtPath(w, w', weather, copies, k);
      forall j | j in w'.journal.value ensures w'.journal.value[j].inode != w'.local[k].inode {
        InodesAtPath(w, w', weather, copies, j);
        if w'.journal.value[j].inode == w'.local[k].inode { OneOwner(w, weather, j, k, w'.local[k].inode); }
      }
    }
  }

  /** Sound paths, distinct inodes, and no tie between different contents. */
  ghost predicate Steady(w: World) {
    SoundWorld(w) && InodesApart(w.local) && forall k | k in Paths(w) :: !Torn(SpotAt(w, k))
  }

  /** One run after another, each with inodes of its own for new files, and a clock that does not lag. */
  ghost predicate Step(w: World, w': World, weather: Weather, copies: bool) {
    Ran(w, w', weather, copies) && FreshInodes(w, weather) && TimelyWeather(w, weather, copies)
  }

  /** A run whose pushes, backups and removals may fail in any of the modelled ways leaves a world from which the next
      run can still converge. */
  lemma RunKeepsSteady(w: World, w': World, weather: Weather, copies: bool)
    requires Step(w, w', weather, copies) && Steady(w)
    ensures Steady(w')
  {
    InodesStayApart(w, w', weather, copies);
    forall k | k in Paths(w')
      ensures Sound(SpotAt(w', k), Renamed(w'.journal, At(w'.local, k))) && !Torn(SpotAt(w', k))
    {
      if k in Paths(w) {
        PathStaysSound(w, w', weather, copies, k);
      } else {
        CopyIsSound(w, w', weather, copies, k);
      }
    }
  }

  lemma PathStaysSound(w: World, w': World, weather: Weather, copies: bool, k: Hash)
    requires Ran(w, w', weather, copies) && FreshInodes(w, weather) && TimelyWeather(w, weather, copies) && Steady(w)
    requires k in Paths(w)
    ensures Sound(SpotAt(w', k), Renamed(w'.journal, At(w'.local, k))) && !Torn(SpotAt(w', k))
  {
    var s, luck, renamed' := SpotAt(w, k), LuckAt(w, weather, k), Renamed(w'.journal, At(w'.local, k));
    assert SpotAt(w', k) == Run(s, luck, copies).spot && Sound(s, luck.renamed) && Timely(s, luck, copies);
    if k !in w'.journal.value { NothingRenamed(w, w', weather, copies, k); }
    SoundExactly(s, luck, copies, renamed');
  }

  /** A conflict copy is on one replica only, and the journal does not know it. */
  lemma CopyIsSound(w: World, w': World, weather: Weather, copies: bool, k: Hash)
    requires Ran(w, w', weather, copies) && SoundWorld(w) && k in Paths(w') && k !in Paths(w)
    ensures Sound(SpotAt(w', k), Renamed(w'.journal, At(w'.local, k))) && !Torn(SpotAt(w', k))
  {
    NewPaths(w, w', weather, copies, k);
    var p :| p in Paths(w) && weather.copyName(p) == k && MadeCopy(w, weather, copies, p);
    var s, luck := SpotAt(w, p), LuckAt(w, weather, p);
    assert Sound(s, luck.renamed);
    CopiesOneSided(s, luck, copies);
    assert At(w'.local, k) == Run(s, luck, copies).localCopy && At(w'.remote, k) == Run(s, luck, copies).remoteCopy;
  }

  /** Runs of which each starts from the world that the one before left. */
  ghost predicate Runs(worlds: seq<World>, weathers: seq<Weather>, copies: seq<bool>) {
    && |worlds| == |weathers| + 1 && |copies| == |weathers|
    && forall i | 0 <= i < |weathers| :: Step(worlds[i], worlds[i + 1], weathers[i], copies[i])
  }

  lemma {:induction false} SteadyThroughout(worlds: seq<World>, weathers: seq<Weather>, copies: seq<bool>, i: nat)
    requires Runs(worlds, weathers, copies) && i <= |weathers| && Steady(worlds[0])
    ensures Steady(worlds[i])
  {
    if i > 0 {
      SteadyThroughout(worlds, weathers, copies, i - 1);
      NextSteady(worlds, weathers, copies, i - 1);
    }
  }

  lemma NextSteady(worlds: seq<World>, weathers: seq<Weather>, copies: seq<bool>, i: nat)
    requires Runs(worlds, weathers, copies) && i < |weathers| && Steady(worlds[i])
    ensures Steady(worlds[i + 1])
  {
    StepAt(worlds, weathers, copies, i);
    RunKeepsSteady(worlds[i], worlds[i + 1], weathers[i], copies[i]);
  }

  lemma StepAt(worlds: seq<World>, weathers: seq<Weather>, copies: seq<bool>, i: nat)
    requires Runs(worlds, weathers, copies) && i < |weathers|
    ensures Step(worlds[i], worlds[i + 1], weathers[i], copies[i])
  {
  }

  /** Failed operations are made good: after any number of runs, with conflict copies on or off, in which pushes,
      backups and removals fail, an error-free run settles every path that is there; without conflict copies it
      converges. */
  lemma EventuallyConverges(worlds: seq<World>, weathers: seq<Weather>, copies: seq<bool>, i: nat)
    requires Runs(worlds, weathers, copies) && Steady(worlds[0]) && i < |weathers| && Lucky(worlds[i], weathers[i])
    ensures forall k | k in Paths(worlds[i]) :: InSync(SpotAt(worlds[i + 1], k))
    ensures !copies[i] ==> Converged(worlds[i + 1])
  {
    SteadyThroughout(worlds, weathers, copies, i);
    StepAt(worlds, weathers, copies, i);
    var w, w', weather, c := worlds[i], worlds[i + 1], weathers[i], copies[i];
    forall k | k in Paths(w) ensures InSync(SpotAt(w', k)) { PathConverges(w, w', weather, c, k); }
    if !c { RunConverges(w, w', weather); }
  }

  /** The decision `next`, at the path that a run left as `s'`: a push that failed before the rename is scheduled
      again exactly if the other replica has no file, or a linked or older one; a removal follows only a displacement
      in a tie; and without a backup the files are as they were. */
  predicate Retries(s: Spot, luck: Luck, copies: bool, s': Spot, next: (Option<Entry>, Option<Entry>)) {
    var (l, r) := Verdict(s, luck, copies);
    && (Pushes(l) && luck.fromLocal == Lost ==>
          && s.l.Some? && (Pushes(next.0) <==> s.r.None? || Yields(s.r, s.l.value))
          && ((copies && luck.backs) || (s'.l == s.l && s'.r == s.r)))
    && (Pushes(r) && luck.fromRemote == Lost ==>
          && s.r.Some? && (Pushes(next.1) <==> s.l.None? || Yields(s.l, s.r.value))
          && (Is(next.1, REMOVE) <==> TieDisplaced(s, luck, copies))
          && ((copies && luck.backs) || (s'.l == s.l && s'.r == s.r)))
  }

  /** In whole worlds the next run, if its listings show both files, retries what failed. */
  lemma NextRunRetries(w: World, w': World, weather: Weather, copies: bool, k: Hash, copies': bool)
    requires Ran(w, w', weather, copies) && FreshInodes(w, weather) && InodesApart(w.local) && k in Paths(w)
    ensures var s' := SpotAt(w', k);
            Retries(SpotAt(w, k), LuckAt(w, weather, k), copies, s', Decided(s', Renamed(w'.journal, s'.l), copies'))
  {
    var s, luck := SpotAt(w, k), LuckAt(w, weather, k);
    assert SpotAt(w', k) == Run(s, luck, copies).spot;
    if k !in w'.journal.value { NothingRenamed(w, w', weather, copies, k); }
    RetriedAt(s, luck, copies, Renamed(w'.journal, SpotAt(w', k).l), copies');
  }

  /** At a path where nothing without a row looks renamed. */
  lemma RetriedAt(s: Spot, luck: Luck, copies: bool, renamed': bool, copies': bool)
    requires Run(s, luck, copies).spot.row.None? ==> !renamed'
    ensures var s' := Run(s, luck, copies).spot; Retries(s, luck, copies, s', Decided(s', renamed', copies'))
  {
    FailedPushIsRetried(s, luck, copies, renamed', copies');
    var (l, r) := Verdict(s, luck, copies);
    if Pushes(l) && luck.fromLocal == Lost { LocalLost(s, luck, copies); }
    var luck' := luck.(seesLocal := true, seesRemote := true, renamed := renamed');
    var s' := Run(s, luck, copies).spot;
    assert View(s', luck') == s';
    NextRunRemovesExactly(s, luck, copies, luck', copies');
  }

  // ---------- conflict copies ----------

  /** Some replica holds the content at the path, or in the conflict copy beside it. */
  predicate Kept(w: World, weather: Weather, k: Hash, c: Content) {
    || Holds(At(w.local, k), c) || Holds(At(w.remote, k), c)
    || Holds(At(w.local, weather.copyName(k)), c) || Holds(At(w.remote, weather.copyName(k)), c)
  }

  /** In whole worlds: a run loses a content that was written since the run before exactly when the rival file
      overwrites it. */
  lemma ContentLostExactly(w: World, w': World, weather: Weather, copies: bool, k: Hash)
    requires RunOf(w, w', weather, copies) && k in Paths(w)
    ensures var s, luck := SpotAt(w, k), LuckAt(w, weather, k);
            && (Changed(s.l, s) ==>
                  (!Kept(w', weather, k, w.local[k].content) <==> Overwrites(s, luck, copies, REMOTE)))
            && (Changed(s.r, s) ==>
                  (!Kept(w', weather, k, w.remote[k].content) <==> Overwrites(s, luck, copies, LOCAL)))
  {
    var s, luck := SpotAt(w, k), LuckAt(w, weather, k);
    LostExactly(s, luck, copies);
    assert SpotAt(w', k) == Run(s, luck, copies).spot;
  }

  /** So with conflict copies on, a backup that works, and listings that show both files, nothing fresh is lost while
      the files have single links and none is renamed. */
  lemma NoContentLost(w: World, w': World, weather: Weather, k: Hash)
    requires RunOf(w, w', weather, true) && weather.backs(k) && k in Paths(w)
    requires weather.seesLocal(k) && weather.seesRemote(k)
    requires var s, luck := SpotAt(w, k), LuckAt(w, weather, k);
             !Linked(s.l) && !Linked(s.r) && !Renames(s, luck.renamed)
    ensures Changed(At(w.local, k), SpotAt(w, k)) ==> Kept(w', weather, k, w.local[k].content)
    ensures Changed(At(w.remote, k), SpotAt(w, k)) ==> Kept(w', weather, k, w.remote[k].content)
  {
    ContentLostExactly(w, w', weather, true, k);
  }

  /** A conflict copy appears exactly beside two fresh files that the run compared, with conflict copies on and a backup
      that worked: on the remote replica if the local file was newer, and else on the local one, unless it equals what
      arrived there and can be removed again. */
  lemma CopiesExactly(w: World, w': World, weather: Weather, copies: bool, k: Hash)
    requires RunOf(w, w', weather, copies) && k in Paths(w)
    ensures var s, luck := SpotAt(w, k), LuckAt(w, weather, k);
            var conflict := copies && luck.backs && BothSeen(s, luck) && Compared(s, luck.renamed);
            && (weather.copyName(k) in w'.remote <==> conflict && s.l.value.mtime > s.r.value.mtime)
            && (weather.copyName(k) in w'.local <==>
                  && conflict
                  && (s.r.value.mtime > s.l.value.mtime || (Known(s) && s.r.value.mtime == s.l.value.mtime))
                  && !(luck.fromRemote != Lost && s.l.value.content == s.r.value.content && luck.removes))
  {
    var s, luck := SpotAt(w, k), LuckAt(w, weather, k);
    assert At(w'.local, weather.copyName(k)) == Run(s, luck, copies).localCopy;
    assert At(w'.remote, weather.copyName(k)) == Run(s, luck, copies).remoteCopy;
    CopiesOf(s, luck, copies);
  }

  lemma CopiesOf(s: Spot, luck: Luck, copies: bool)
    ensures var o := Run(s, luck, copies);
            var conflict := copies && luck.backs && BothSeen(s, luck) && Compared(s, luck.renamed);
            && (o.remoteCopy.Some? <==> conflict && s.l.value.mtime > s.r.value.mtime)
            && (o.localCopy.Some? <==>
                  && conflict
                  && (s.r.value.mtime > s.l.value.mtime || (Known(s) && s.r.value.mtime == s.l.value.mtime))
                  && !(luck.fromRemote != Lost && s.l.value.content == s.r.value.content && luck.removes))
  {
    RunExactly(s, luck, copies);
    ConflictExactly(View(s, luck), luck.renamed, copies);
  }

  /** A local file without a row whose inode some row has, as after a rename, gives way to a remote file at its path,
      whatever their times. */
  lemma RenamedGivesWay(w: World, weather: Weather, copies: bool, k: Hash, before: Hash)
    requires w.journal.Some? && k !in w.journal.value && before in w.journal.value
    requires k in w.local && w.local[k].inode == w.journal.value[before].inode && w.local[k].nlink <= 1
    requires k in w.remote && w.remote[k].nlink <= 1 && weather.seesLocal(k) && weather.seesRemote(k)
    ensures var (l, r) := VerdictAt(w, weather, copies, k); !Acts(l) && Is(r, NEW)
  {
    DecisionTable(SpotAt(w, k), LuckAt(w, weather, k).renamed, copies);
    assert View(SpotAt(w, k), LuckAt(w, weather, k)) == SpotAt(w, k);
  }
}

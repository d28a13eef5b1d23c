/** A synchronisation run over the two replica trees: update detection, two reconcile passes, two propagation passes,
    the merge of the trees and the new journal. */
module Csyncs {
  import opened Options
  import opened RedBlack
  import opened SyncRules
  import opened FileStats
  import opened RbTrees
  import opened Worlds

  /** The records of a tree, by hash. */
  type Table = map<Hash, FileStat>

  ghost predicate Named(s: Table) { forall k | k in s :: s[k].phash == k }

  /** The index of a tree finds exactly the records of the table. */
  ghost predicate Keeps(index: map<Hash, RbNode>, s: Table) {
    && Named(s) && (forall k :: k in s <==> k in index) && forall k | k in s :: index[k].data == s[k]
  }

  lemma KeepsMore(index: map<Hash, RbNode>, index': map<Hash, RbNode>, s: Table, s': Table, st: FileStat)
    requires Keeps(index, s) && s' == if st.phash in s then s else s[st.phash := st]
    requires if st.phash in index then index' == index
               else st.phash in index' && index' == index[st.phash := index'[st.phash]] && index'[st.phash].data == st
    ensures Keeps(index', s')
  {
  }

  ghost function Entries(s: Table): map<Hash, Entry> reads s.Values { map k | k in s :: s[k].ToEntry() }

  /** The records in the order of a walk: each once, by ascending hash. */
  ghost predicate Lists(recs: seq<FileStat>, s: Table) {
    && (forall i | 0 <= i < |recs| :: recs[i].phash in s && s[recs[i].phash] == recs[i])
    && (forall k | k in s :: s[k] in recs)
    && (forall i, j | 0 <= i < j < |recs| :: recs[i].phash < recs[j].phash)
  }

  method Records(t: RbTree, ghost s: Table) returns (recs: seq<FileStat>)
    requires t.Valid() && Keeps(t.Index, s)
    ensures Lists(recs, s) && Hashes(recs) == s.Keys
  {
    var keepOn := (n: nat) => 0;
    var rc, visited := t.Walk(keepOn);
    assert |visited| > 0 ==> keepOn(|visited| - 1) == 0;
    DataLists(t, visited, t.Nodes, t.Index, s);
    recs := Data(visited);
  }

  lemma DataLists(t: RbTree, visited: seq<RbNode>, nodes: set<RbNode>, index: map<Hash, RbNode>, s: Table)
    requires Indexes(t, nodes, index) && Keeps(index, s) && forall n :: n in visited <==> n in nodes
    requires forall i, j | 0 <= i < j < |visited| :: visited[i].Key() < visited[j].Key()
    ensures (forall n | n in visited :: n.data != null) && Lists(Data(visited), s) && Hashes(Data(visited)) == s.Keys
  {
    var recs := Data(visited);
    forall i | 0 <= i < |recs| ensures recs[i].phash in s && s[recs[i].phash] == recs[i] {
      assert visited[i] in visited;
    }
    forall i, j | 0 <= i < j < |recs| ensures recs[i].phash < recs[j].phash {
      assert visited[i].Key() < visited[j].Key();
    }
    forall k | k in s ensures s[k] in recs {
      assert index[k] in visited;
      var i :| 0 <= i < |visited| && visited[i] == index[k];
      assert recs[i] == s[k];
    }
    AllHashes(recs, s);
  }

  function Data(visited: seq<RbNode>): seq<FileStat>
    requires forall n | n in visited :: n.data != null
  {
    seq(|visited|, i requires 0 <= i < |visited| => var n := visited[i]; n.data)
  }

  // ---------- reconciliation ----------

  /** The entries of two trees as `a0` and `b0` become `a` and `b` when a pass over the first has visited the hashes
      `done`. */
  ghost predicate Passed(a0: map<Hash, Entry>, b0: map<Hash, Entry>, a: map<Hash, Entry>, b: map<Hash, Entry>,
                         done: set<Hash>, copies: bool)
  {
    forall k :: (At(a, k), At(b, k)) == if k in done then Pass(At(a0, k), At(b0, k), copies) else (At(a0, k), At(b0, k))
  }

  lemma PassedOne(a0: map<Hash, Entry>, b0: map<Hash, Entry>, a1: map<Hash, Entry>, b1: map<Hash, Entry>,
                  a: map<Hash, Entry>, b: map<Hash, Entry>, done: set<Hash>, k: Hash, copies: bool)
    requires Passed(a0, b0, a1, b1, done, copies) && k !in done && Passed(a1, b1, a, b, {k}, copies)
    ensures Passed(a0, b0, a, b, done + {k}, copies)
  {
  }

  /** The record of the other tree for a hash, if there is one. */
  ghost function Partner(b: Table, k: Hash): set<FileStat> { if k in b then {b[k]} else {} }

  /** The visitor of a reconcile pass. */
  method MergeAlgorithmVisitor(cur: FileStat, tree: RbTree, copies: bool, ghost a: Table, ghost b: Table)
    requires tree.Valid() && Named(a) && Keeps(tree.Index, b) && a.Values !! b.Values && cur.phash in a
    requires a[cur.phash] == cur
    modifies cur, Partner(b, cur.phash)
    ensures Passed(old(Entries(a)), old(Entries(b)), Entries(a), Entries(b), {cur.phash}, copies)
  {
    var node, _ := tree.Find(cur.phash);
    assert node == if cur.phash in tree.Index then tree.Index[cur.phash] else null;
    assert cur.phash in b <==> cur.phash in tree.Index;
    assert cur.phash in b ==> tree.Index[cur.phash].data == b[cur.phash];
    Decide(cur, if node == null then null else node.data, copies, a, b);
  }

  method Decide(cur: FileStat, other: FileStat?, copies: bool, ghost a: Table, ghost b: Table)
    requires Named(a) && Named(b) && a.Values !! b.Values && cur.phash in a && a[cur.phash] == cur
    requires other == if cur.phash in b then b[cur.phash] else null
    modifies cur, Partner(b, cur.phash)
    ensures Passed(old(Entries(a)), old(Entries(b)), Entries(a), Entries(b), {cur.phash}, copies)
  {
    assert cur in a.Values && (other != null ==> other in b.Values);
    if other == null {
      OnlyHere(cur);
    } else {
      OnBoth(cur, other, copies);
    }
  }

  method OnlyHere(cur: FileStat)
    modifies cur
    ensures cur.ToEntry() == old(cur.ToEntry()).(instruction := VisitAlone(old(cur.instruction)))
  {
    match cur.instruction {
      case EVAL => cur.instruction := NEW;
      case NONE => cur.instruction := REMOVE;
      case RENAME => cur.instruction := NEW;
      case _ =>
    }
  }

  method OnBoth(cur: FileStat, other: FileStat, copies: bool)
    requires cur != other
    modifies cur, other
    ensures var (c, o) := VisitPair(old(cur.ToEntry()), old(other.ToEntry()), copies);
            cur.ToEntry() == old(cur.ToEntry()).(instruction := c)
                && other.ToEntry() == old(other.ToEntry()).(instruction := o)
  {
    var push := if copies then CONFLICT else SYNC;
    match cur.instruction {
      case NEW =>
        match other.instruction {
          case NEW =>
            if cur.modtime > other.modtime {
              cur.instruction := push;
              other.instruction := NONE;
            } else if cur.modtime < other.modtime {
              cur.instruction := NONE;
              other.instruction := push;
            } else {
              cur.instruction := NONE;
              other.instruction := NONE;
            }
          case EVAL =>
            cur.instruction := if cur.modtime > other.modtime then push else NONE;
          case NONE =>
            cur.instruction := SYNC;
          case _ =>
        }
      case EVAL =>
        match other.instruction {
          case NEW =>
            cur.instruction := if cur.modtime > other.modtime then push else NONE;
          case EVAL =>
            if cur.modtime > other.modtime {
              cur.instruction := push;
              if copies {
                other.instruction := NONE;
              }
            } else {
              cur.instruction := NONE;
              if copies {
                other.instruction := CONFLICT;
              }
            }
          case NONE =>
            cur.instruction := SYNC;
          case _ =>
        }
      case _ =>
    }
  }

  /** One pass over the records that a walk of the tree `cur` lists: every record meets its partner, whatever the order,
      as the rule for one path says. */
  method ReconcileUpdates(recs: seq<FileStat>, cur: RbTree, other: RbTree, copies: bool, ghost a: Table, ghost b: Table)
    requires Lists(recs, a) && Named(a) && cur.Valid() && other.Valid() && Keeps(other.Index, b) && a.Values !! b.Values
    modifies a.Values, b.Values
    ensures cur.Valid() && other.Valid() && other.Index == old(other.Index) && cur.Index == old(cur.Index)
    ensures Passed(old(Entries(a)), old(Entries(b)), Entries(a), Entries(b), Hashes(recs), copies)
  {
    ghost var a0, b0 := Entries(a), Entries(b);
    var i := 0;
    while i < |recs|
      invariant 0 <= i <= |recs| && cur.Valid() && other.Valid() && Keeps(other.Index, b)
      invariant other.Index == old(other.Index) && cur.Index == old(cur.Index)
      invariant Passed(a0, b0, Entries(a), Entries(b), Hashes(recs[..i]), copies)
    {
      VisitNext(recs, i, cur, other, copies, a, b, a0, b0);
      i := i + 1;
    }
    assert recs[..i] == recs;
  }

  method VisitNext(recs: seq<FileStat>, i: nat, cur: RbTree, other: RbTree, copies: bool, ghost a: Table,
                   ghost b: Table, ghost a0: map<Hash, Entry>, ghost b0: map<Hash, Entry>)
    requires i < |recs| && Lists(recs, a) && Named(a) && cur.Valid() && other.Valid() && Keeps(other.Index, b)
    requires a.Values !! b.Values
    requires Passed(a0, b0, Entries(a), Entries(b), Hashes(recs[..i]), copies)
    modifies a.Values, b.Values
    ensures cur.Valid() && other.Valid() && other.Index == old(other.Index) && cur.Index == old(cur.Index)
    ensures Passed(a0, b0, Entries(a), Entries(b), Hashes(recs[..i + 1]), copies)
  {
    ghost var a1, b1 := Entries(a), Entries(b);
    NextHash(recs, i);
    VisitBeside(recs[i], cur, other, copies, a, b);
    PassedOne(a0, b0, a1, b1, Entries(a), Entries(b), Hashes(recs[..i]), recs[i].phash, copies);
  }

  /** The visitor changes records only, not the trees. */
  method VisitBeside(st: FileStat, cur: RbTree, other: RbTree, copies: bool, ghost a: Table, ghost b: Table)
    requires cur.Valid() && other.Valid() && Named(a) && Keeps(other.Index, b) && a.Values !! b.Values
    requires st.phash in a && a[st.phash] == st
    modifies st, Partner(b, st.phash)
    ensures cur.Valid() && other.Valid() && other.Index == old(other.Index) && cur.Index == old(cur.Index)
    ensures Passed(old(Entries(a)), old(Entries(b)), Entries(a), Entries(b), {st.phash}, copies)
  {
    VisitUnderIndex(st, other, copies, a, b);
  }

  method VisitUnderIndex(st: FileStat, other: RbTree, copies: bool, ghost a: Table, ghost b: Table)
    requires other.Valid() && Named(a) && Keeps(other.Index, b) && a.Values !! b.Values
    requires st.phash in a && a[st.phash] == st
    modifies st, Partner(b, st.phash)
    ensures other.Index == old(other.Index) && other.Tree == old(other.Tree)
    ensures other.Valid()
    ensures Passed(old(Entries(a)), old(Entries(b)), Entries(a), Entries(b), {st.phash}, copies)
  {
    MergeAlgorithmVisitor(st, other, copies, a, b);
  }

  ghost function Hashes(recs: seq<FileStat>): set<Hash> { set st | st in recs :: st.phash }

  lemma NextHash(recs: seq<FileStat>, i: nat)
    requires i < |recs| && forall i, j | 0 <= i < j < |recs| :: recs[i].phash < recs[j].phash
    ensures recs[i].phash !in Hashes(recs[..i]) && Hashes(recs[..i + 1]) == Hashes(recs[..i]) + {recs[i].phash}
  {
    assert recs[..i + 1] == recs[..i] + [recs[i]];
  }

  lemma AllHashes(recs: seq<FileStat>, s: Table)
    requires Lists(recs, s) && Named(s)
    ensures Hashes(recs) == s.Keys
  {
    forall k | k in s ensures k in Hashes(recs) { assert s[k] in recs; }
  }

  // ---------- update detection ----------

  /** The nodes of the tree that were not there are new. */
  twostate predicate Grown(t: RbTree) reads t`Nodes { forall n | n in t.Nodes :: n in old(t.Nodes) || fresh(n) }

  function SeenAt(w: World, replica: Replica, k: Hash): Option<Entry> {
    Seen(replica, At(FilesOf(w, replica), k), SpotAt(w, k), Renamed(w.journal, At(w.local, k)))
  }

  /** The instruction that update detection gives a file. */
  method Instruct(w: World, replica: Replica, k: Hash, f: File) returns (instruction: Instruction)
    requires At(FilesOf(w, replica), k) == Some(f)
    ensures SeenAt(w, replica, k) == Some(Entry(instruction, f.mtime, f.inode))
  {
    instruction := NONE;
    if f.nlink > 1 {
      instruction := IGNORE;
    } else if w.journal.Some? {
      if k in w.journal.value {
        if f.mtime > w.journal.value[k].mtime {
          instruction := EVAL;
        }
      } else if replica == LOCAL && InodeKnown(w.journal, f.inode) {
        instruction := RENAME;
      } else {
        instruction := NEW;
      }
    } else {
      instruction := NEW;
    }
  }

  method NewStat(w: World, replica: Replica, k: Hash) returns (st: FileStat)
    requires k in FilesOf(w, replica)
    ensures fresh(st) && st.phash == k && Some(st.ToEntry()) == SeenAt(w, replica, k)
  {
    var f := FilesOf(w, replica)[k];
    var instruction := Instruct(w, replica, k, f);
    st := new FileStat(k, instruction, f.mtime, f.inode);
  }

  /** Looks at one file and adds its record to the tree of its replica. */
  method DetectUpdate(t: RbTree, w: World, replica: Replica, k: Hash, ghost s: Table) returns (ghost s': Table)
    requires t.Valid() && Keeps(t.Index, s) && k in FilesOf(w, replica)
    modifies t, t.Nodes
    ensures t.Valid() && Keeps(t.Index, s') && Grown(t)
    ensures Extends(s', s)
    ensures Entries(s') == if k in s then old(Entries(s)) else old(Entries(s))[k := SeenAt(w, replica, k).value]
  {
    ghost var e := Entries(s);
    var st := NewStat(w, replica, k);
    SameEntries(s, e);
    s' := Inserted(t, st, s, {});
  }

  /** These records are as they were. */
  twostate predicate Kept(keep: set<FileStat>) reads keep { forall o | o in keep :: o.ToEntry() == old(o.ToEntry()) }

  method Inserted(t: RbTree, st: FileStat, ghost s: Table, ghost keep: set<FileStat>) returns (ghost s': Table)
    requires t.Valid() && Keeps(t.Index, s)
    modifies t, t.Nodes
    ensures t.Valid() && Keeps(t.Index, s') && Grown(t)
    ensures s' == if st.phash in s then s else s[st.phash := st]
    ensures Entries(s') == if st.phash in s then old(Entries(s)) else old(Entries(s))[st.phash := old(st.ToEntry())]
    ensures Kept(keep)
  {
    ghost var index := t.Index;
    s' := if st.phash in s then s else s[st.phash := st];
    ghost var e := Entries(s');
    EntriesMore(s, s', st);
    var rc := InsertBeside(t, st, s'.Values + keep);
    SameEntries(s', e);
    KeepsMore(index, t.Index, s, s', st);
  }

  lemma EntriesMore(s: Table, s': Table, st: FileStat)
    requires s' == if st.phash in s then s else s[st.phash := st]
    ensures Entries(s') == if st.phash in s then Entries(s) else Entries(s)[st.phash := st.ToEntry()]
  {
  }

  lemma SameEntries(s: Table, e: map<Hash, Entry>)
    requires s.Keys == e.Keys && forall k | k in s :: s[k].ToEntry() == e[k]
    ensures Entries(s) == e
  {
  }

  /** Insertion leaves every record as it was. */
  method InsertBeside(t: RbTree, st: FileStat, ghost recs: set<FileStat>) returns (rc: int)
    requires t.Valid()
    modifies t, t.Nodes
    ensures t.Valid() && Grown(t)
    ensures rc == if st.phash in old(t.Index) then 1 else 0
    ensures rc == 1 ==> t.Index == old(t.Index)
    ensures rc == 0 ==>
              && st.phash in t.Index && t.Index == old(t.Index)[st.phash := t.Index[st.phash]]
              && t.Index[st.phash].data == st
    ensures Kept(recs)
  {
    rc := t.Insert(st);
  }

  /** The records of `s'` that are not in `s` are new. */
  twostate predicate Extends(new s': Table, s: Table) {
    forall k | k in s' :: (k in s && s'[k] == s[k]) || fresh(s'[k])
  }

  /** The entries of the first files that a walk met. */
  ghost predicate Detected(e: map<Hash, Entry>, w: World, replica: Replica, met: seq<Hash>) {
    forall k :: At(e, k) == if k in met then SeenAt(w, replica, k) else None
  }

  /** Walks a replica; `order` lists paths of it as its directories happen to, and without those that the walk skips: a
      directory that cannot be opened or read to its end, a file of which nothing can be told, an excluded name. */
  method Update(t: RbTree, w: World, replica: Replica, order: seq<Hash>) returns (ghost s: Table)
    requires t.Valid() && t.Index == map[] && forall k | k in order :: k in FilesOf(w, replica)
    modifies t, t.Nodes
    ensures t.Valid() && Keeps(t.Index, s) && Grown(t) && Extends(s, map[])
    ensures Detected(Entries(s), w, replica, order)
  {
    s := map[];
    var i := 0;
    while i < |order|
      invariant 0 <= i <= |order| && t.Valid() && Keeps(t.Index, s) && Grown(t) && Extends(s, map[])
      invariant Detected(Entries(s), w, replica, order[..i])
    {
      s := DetectNext(t, w, replica, order, i, s);
      i := i + 1;
    }
    assert order[..i] == order;
  }

  method DetectNext(t: RbTree, w: World, replica: Replica, order: seq<Hash>, i: nat, ghost s: Table)
    returns (ghost s': Table)
    requires i < |order| && t.Valid() && Keeps(t.Index, s) && order[i] in FilesOf(w, replica)
    requires Detected(Entries(s), w, replica, order[..i])
    modifies t, t.Nodes
    ensures t.Valid() && Keeps(t.Index, s') && Grown(t) && Extends(s', s)
    ensures Detected(Entries(s'), w, replica, order[..i + 1])
  {
    ghost var e := Entries(s);
    s' := DetectUpdate(t, w, replica, order[i], s);
    DetectedOne(e, Entries(s'), w, replica, order, i);
  }

  lemma DetectedOne(e: map<Hash, Entry>, e': map<Hash, Entry>, w: World, replica: Replica, order: seq<Hash>, i: nat)
    requires i < |order| && order[i] in FilesOf(w, replica) && Detected(e, w, replica, order[..i])
    requires e' == if order[i] in e then e else e[order[i] := SeenAt(w, replica, order[i]).value]
    ensures Detected(e', w, replica, order[..i + 1])
  {
    assert order[..i + 1] == order[..i] + [order[i]];
    assert order[i] in order[..i] <==> order[i] in e by {
      assert At(e, order[i]) == if order[i] in order[..i] then SeenAt(w, replica, order[i]) else None;
    }
  }

  // ---------- propagation ----------

  /** The files of one replica, as the file operations see them. */
  class Store {
    var files: Files

    constructor (files: Files)
      ensures this.files == files
    {
      this.files := files;
    }

    /** Fails when there is no such file, or when the world does not let it. */
    method Unlink(k: Hash, works: bool) returns (ok: bool)
      modifies this
      ensures ok <==> works && k in old(files)
      ensures files == if ok then Put(old(files), k, None) else old(files)
    {
      ok := works && k in files;
      if ok {
        files := files - {k};
      }
    }

    method Rename(k: Hash, k': Hash, works: bool) returns (ok: bool)
      requires k != k'
      modifies this
      ensures ok <==> works && k in old(files)
      ensures files == if ok then Put(Put(old(files), k, None), k', At(old(files), k)) else old(files)
    {
      ok := works && k in files;
      if ok {
        files := files[k' := files[k]] - {k};
      }
    }
  }

  function Put(m: Files, k: Hash, f: Option<File>): Files {
    match f
    case None => m - {k}
    case Some(g) => m[k := g]
  }

  function PushOf(current: Replica, weather: Weather, k: Hash): Push {
    if current == LOCAL then weather.fromLocal(k) else weather.fromRemote(k)
  }

  function NewInode(current: Replica, weather: Weather, k: Hash): nat {
    if current == LOCAL then weather.newRemote(k) else weather.newLocal(k)
  }

  function MovedAt(current: Replica, weather: Weather, k: Hash,
                   e: Option<Entry>, src: Option<File>, dst: Option<File>): Moved
  {
    Propagate(current, e, src, dst, PushOf(current, weather, k), weather.backs(k), weather.removes(k),
              NewInode(current, weather, k))
  }

  /** Pushes a file over to the other replica. A push that fails before the rename leaves the destination as it was; one
      that fails after it, or cannot set the time, leaves the new content there with the time of its writing. */
  method PushFile(current: Replica, weather: Weather, st: FileStat, src: Store, dst: Store) returns (rc: int)
    requires src != dst && st.phash in src.files
    modifies st, dst
    ensures var k, push := st.phash, PushOf(current, weather, st.phash);
            && (rc == 0 <==> Works(push))
            && st.ToEntry() == old(st.ToEntry()).(instruction := if rc == 0 then UPDATED else ERROR)
            && dst.files == Put(old(dst.files), k, Delivered(old(st.ToEntry()), src.files[k], push,
                                                             NewInode(current, weather, k), At(old(dst.files), k)))
  {
    var k := st.phash;
    rc := 1;
    match PushOf(current, weather, k) {
      case Lost =>
      case Placed(time) =>
        dst.files := dst.files[k := File(src.files[k].content, time, NewInode(current, weather, k), 1)];
      case Undated(time) =>
        dst.files := dst.files[k := File(src.files[k].content, time, NewInode(current, weather, k), 1)];
        rc := 0;
      case Done =>
        dst.files := dst.files[k := File(src.files[k].content, st.modtime, NewInode(current, weather, k), 1)];
        rc := 0;
    }
    st.instruction := if rc == 0 then UPDATED else ERROR;
  }

  /** Moves the destination out of the way, pushes, and tries to drop a local conflict copy that turns out equal. */
  method ConflictFile(current: Replica, weather: Weather, st: FileStat, src: Store, dst: Store)
    requires src != dst && st.phash in src.files && st.instruction == CONFLICT
    requires weather.copyName(st.phash) !in dst.files && weather.copyName(st.phash) != st.phash
    modifies st, dst
    ensures var k := st.phash;
            var m := MovedAt(current, weather, k, Some(old(st.ToEntry())), At(src.files, k), At(old(dst.files), k));
            && Some(st.ToEntry()) == m.entry
            && dst.files == Put(Put(old(dst.files), k, m.dst), weather.copyName(k), m.copy)
  {
    var k, name := st.phash, weather.copyName(st.phash);
    ghost var e, d0 := st.ToEntry(), dst.files;
    var moved := dst.Rename(k, name, weather.backs(k));
    st.instruction := if moved then NONE else ERROR;
    ghost var d1 := dst.files;
    var _ := PushFile(current, weather, st, src, dst);
    ghost var d2 := dst.files;
    if current == REMOTE && k in dst.files && name in dst.files && dst.files[k].content == dst.files[name].content {
      var _ := dst.Unlink(name, weather.removes(k));
    }
    ConflictIs(current, weather, k, e, src.files[k], d0, d1, d2, dst.files);
  }

  /** What the three steps of a conflict come to. */
  lemma ConflictIs(current: Replica, weather: Weather, k: Hash, e: Entry, src: File,
                   d0: Files, d1: Files, d2: Files, d3: Files)
    requires var name := weather.copyName(k); name !in d0 && name != k && e.instruction == CONFLICT
    requires d1 == if weather.backs(k) && k in d0 then Put(Put(d0, k, None), weather.copyName(k), At(d0, k)) else d0
    requires d2 == Put(d1, k, Delivered(e, src, PushOf(current, weather, k), NewInode(current, weather, k), At(d1, k)))
    requires var name := weather.copyName(k);
             var equal := current == REMOTE && k in d2 && name in d2 && d2[k].content == d2[name].content;
             d3 == if equal && weather.removes(k) then Put(d2, name, None) else d2
    ensures var m := MovedAt(current, weather, k, Some(e), Some(src), At(d0, k));
            d3 == Put(Put(d0, k, m.dst), weather.copyName(k), m.copy)
  {
  }

  /** Removes a file; when that fails, the record stays for the next run. */
  method RemoveFile(weather: Weather, st: FileStat, src: Store)
    requires st.phash in src.files
    modifies st, src
    ensures var ok := weather.removes(st.phash);
            && st.ToEntry() == old(st.ToEntry()).(instruction := if ok then DELETED else NONE)
            && src.files == if ok then Put(old(src.files), st.phash, None) else old(src.files)
  {
    var ok := src.Unlink(st.phash, weather.removes(st.phash));
    st.instruction := if ok then DELETED else NONE;
  }

  /** The visitor of a propagation pass. */
  method PropagationFileVisitor(current: Replica, weather: Weather, st: FileStat, src: Store, dst: Store)
    requires src != dst && (Acts(Some(st.ToEntry())) ==> st.phash in src.files)
    requires weather.copyName(st.phash) !in dst.files && weather.copyName(st.phash) != st.phash
    modifies st, src, dst
    ensures var k := st.phash;
            var m := MovedAt(current, weather, k, Some(old(st.ToEntry())),
                             At(old(src.files), k), At(old(dst.files), k));
            && Some(st.ToEntry()) == m.entry
            && src.files == Put(old(src.files), k, m.src)
            && dst.files == Put(Put(old(dst.files), k, m.dst), weather.copyName(k), m.copy)
  {
    match st.instruction {
      case NEW => var _ := PushFile(current, weather, st, src, dst);
      case SYNC => var _ := PushFile(current, weather, st, src, dst);
      case REMOVE => RemoveFile(weather, st, src);
      case CONFLICT => ConflictFile(current, weather, st, src, dst);
      case _ =>
    }
  }

  /** What a propagation pass works on: the entries of one tree, the files of its replica, and those of the other. */
  datatype Sides = Sides(entries: map<Hash, Entry>, src: Files, dst: Files)

  function MoveOf(current: Replica, weather: Weather, x: Sides, k: Hash): Moved {
    MovedAt(current, weather, k, At(x.entries, k), At(x.src, k), At(x.dst, k))
  }

  /** A pass that has visited the hashes `done` has made `x` of `x0`: what the rule for one path says there, and
      nothing elsewhere. */
  ghost predicate Propagated(current: Replica, weather: Weather, paths: set<Hash>, x0: Sides, x: Sides,
                             done: set<Hash>)
  {
    && (forall k | k in paths ::
          Moved(At(x.entries, k), At(x.src, k), At(x.dst, k), At(x.dst, weather.copyName(k))) ==
          if k in done then MoveOf(current, weather, x0, k)
              else Moved(At(x0.entries, k), At(x0.src, k), At(x0.dst, k), None))
    && (forall k | k !in paths :: At(x.src, k) == At(x0.src, k) && At(x.entries, k) == At(x0.entries, k))
    && (forall k | k !in paths && !IsName(paths, weather.copyName, k) :: At(x.dst, k) == At(x0.dst, k))
  }

  lemma PropagatedOne(current: Replica, weather: Weather, paths: set<Hash>, x0: Sides, x1: Sides, x: Sides,
                      done: set<Hash>, k: Hash)
    requires FreshNames(paths, weather.copyName) && k in paths && k !in done && k in x1.entries
    requires Propagated(current, weather, paths, x0, x1, done)
    requires MovedTo(current, weather, x1, x, k)
    ensures Propagated(current, weather, paths, x0, x, done + {k})
  {
    assert IsName(paths, weather.copyName, weather.copyName(k));
    forall j | j in paths
      ensures Moved(At(x.entries, j), At(x.src, j), At(x.dst, j), At(x.dst, weather.copyName(j))) ==
              if j in done + {k} then MoveOf(current, weather, x0, j)
                  else Moved(At(x0.entries, j), At(x0.src, j), At(x0.dst, j), None)
    {
      if j != k { ElsewhereSame(current, weather, paths, x1, x, k, j); } else { HereMoved(current, weather, x1, x, k); }
    }
    forall j | j !in paths && !IsName(paths, weather.copyName, j) ensures At(x.dst, j) == At(x0.dst, j) {
      assert j != weather.copyName(k);
    }
  }

  /** The visitor at `k` made `x` of `x1`. */
  ghost predicate MovedTo(current: Replica, weather: Weather, x1: Sides, x: Sides, k: Hash) {
    var m := MoveOf(current, weather, x1, k);
    && m.entry.Some? && x.entries == x1.entries[k := m.entry.value]
    && x.src == Put(x1.src, k, m.src) && x.dst == Put(Put(x1.dst, k, m.dst), weather.copyName(k), m.copy)
  }

  lemma ElsewhereSame(current: Replica, weather: Weather, paths: set<Hash>, x1: Sides, x: Sides, k: Hash, j: Hash)
    requires FreshNames(paths, weather.copyName) && k in paths && j in paths && j != k
    requires MovedTo(current, weather, x1, x, k)
    ensures At(x.entries, j) == At(x1.entries, j) && At(x.src, j) == At(x1.src, j) && At(x.dst, j) == At(x1.dst, j)
    ensures At(x.dst, weather.copyName(j)) == At(x1.dst, weather.copyName(j))
  {
    assert weather.copyName(j) != k && weather.copyName(k) != j && weather.copyName(k) != weather.copyName(j);
  }

  lemma HereMoved(current: Replica, weather: Weather, x1: Sides, x: Sides, k: Hash)
    requires MovedTo(current, weather, x1, x, k) && weather.copyName(k) != k
    ensures Moved(At(x.entries, k), At(x.src, k), At(x.dst, k), At(x.dst, weather.copyName(k))) ==
              MoveOf(current, weather, x1, k)
  {
  }

  /** The visitor changes one record and files only, not the tree. */
  method VisitUnder(current: Replica, weather: Weather, st: FileStat, src: Store, dst: Store, ghost s: Table,
                    ghost x1: Sides, ghost lt: RbTree)
    requires lt.Valid() && src != dst && Named(s) && st.phash in s && s[st.phash] == st
    requires x1 == Sides(Entries(s), src.files, dst.files)
    requires (Acts(Some(st.ToEntry())) ==> st.phash in src.files) && weather.copyName(st.phash) !in dst.files
    requires weather.copyName(st.phash) != st.phash
    modifies st, src, dst
    ensures lt.Valid() && lt.Index == old(lt.Index)
    ensures MovedTo(current, weather, x1, Sides(Entries(s), src.files, dst.files), st.phash)
  {
    VisitRecord(current, weather, st, src, dst, s, x1);
  }

  method VisitRecord(current: Replica, weather: Weather, st: FileStat, src: Store, dst: Store, ghost s: Table,
                     ghost x1: Sides)
    requires src != dst && Named(s) && st.phash in s && s[st.phash] == st
    requires x1 == Sides(Entries(s), src.files, dst.files)
    requires (Acts(Some(st.ToEntry())) ==> st.phash in src.files) && weather.copyName(st.phash) !in dst.files
    requires weather.copyName(st.phash) != st.phash
    modifies st, src, dst
    ensures MovedTo(current, weather, x1, Sides(Entries(s), src.files, dst.files), st.phash)
  {
    PropagationFileVisitor(current, weather, st, src, dst);
    OneChanged(s, x1.entries, st.phash);
  }

  lemma Untouched(current: Replica, weather: Weather, paths: set<Hash>, x0: Sides, x1: Sides, done: set<Hash>, k: Hash)
    requires Propagated(current, weather, paths, x0, x1, done) && k in paths && k !in done
    ensures At(x1.entries, k) == At(x0.entries, k) && At(x1.src, k) == At(x0.src, k) && weather.copyName(k) !in x1.dst
  {
    assert Moved(At(x1.entries, k), At(x1.src, k), At(x1.dst, k), At(x1.dst, weather.copyName(k))) ==
        Moved(At(x0.entries, k), At(x0.src, k), At(x0.dst, k), None);
  }

  lemma OneChanged(s: Table, e: map<Hash, Entry>, k: Hash)
    requires s.Keys == e.Keys && k in s && forall j | j in s && j != k :: s[j].ToEntry() == e[j]
    ensures Entries(s) == e[k := s[k].ToEntry()]
  {
  }

  method PropagateNext(current: Replica, weather: Weather, recs: seq<FileStat>, i: nat, src: Store, dst: Store,
                       ghost s: Table, ghost paths: set<Hash>, ghost x0: Sides, ghost lt: RbTree)
    requires i < |recs| && Lists(recs, s) && Named(s) && s.Keys <= paths && src != dst
    requires FreshNames(paths, weather.copyName) && lt.Valid()
    requires forall k | k in s && Acts(At(x0.entries, k)) :: k in x0.src
    requires Propagated(current, weather, paths, x0, Sides(Entries(s), src.files, dst.files), Hashes(recs[..i]))
    modifies s.Values, src, dst
    ensures lt.Valid() && lt.Index == old(lt.Index)
    ensures Propagated(current, weather, paths, x0, Sides(Entries(s), src.files, dst.files), Hashes(recs[..i + 1]))
  {
    ghost var k, x1 := recs[i].phash, Sides(Entries(s), src.files, dst.files);
    NextHash(recs, i);
    Untouched(current, weather, paths, x0, x1, Hashes(recs[..i]), k);
    VisitUnder(current, weather, recs[i], src, dst, s, x1, lt);
    PropagatedOne(current, weather, paths, x0, x1, Sides(Entries(s), src.files, dst.files), Hashes(recs[..i]), k);
  }

  /** Visits the records of the tree of the current replica, as its walk lists them, and carries out their
      instructions. */
  method PropagateFiles(current: Replica, weather: Weather, recs: seq<FileStat>, src: Store, dst: Store,
                        ghost s: Table, ghost paths: set<Hash>, ghost lt: RbTree)
    requires Lists(recs, s) && Named(s) && s.Keys <= paths && src != dst && FreshNames(paths, weather.copyName)
    requires lt.Valid()
    requires forall k | k in s && Acts(At(Entries(s), k)) :: k in src.files
    requires forall k | k in paths :: weather.copyName(k) !in dst.files
    modifies s.Values, src, dst
    ensures lt.Valid() && lt.Index == old(lt.Index)
    ensures Propagated(current, weather, paths, old(Sides(Entries(s), src.files, dst.files)),
              Sides(Entries(s), src.files, dst.files), old(Entries(s)).Keys)
  {
    ghost var x0 := Sides(Entries(s), src.files, dst.files);
    NothingPropagated(current, weather, paths, x0);
    AllHashes(recs, s);
    PropagateAll(current, weather, recs, src, dst, s, paths, x0, lt);
  }

  lemma NothingPropagated(current: Replica, weather: Weather, paths: set<Hash>, x: Sides)
    requires forall k | k in paths :: weather.copyName(k) !in x.dst
    ensures Propagated(current, weather, paths, x, x, {})
  {
  }

  method PropagateAll(current: Replica, weather: Weather, recs: seq<FileStat>, src: Store, dst: Store, ghost s: Table,
                      ghost paths: set<Hash>, ghost x0: Sides, ghost lt: RbTree)
    requires Lists(recs, s) && Named(s) && s.Keys <= paths && src != dst && FreshNames(paths, weather.copyName)
    requires lt.Valid() && forall k | k in s && Acts(At(x0.entries, k)) :: k in x0.src
    requires Propagated(current, weather, paths, x0, Sides(Entries(s), src.files, dst.files), {})
    modifies s.Values, src, dst
    ensures lt.Valid() && lt.Index == old(lt.Index)
    ensures Propagated(current, weather, paths, x0, Sides(Entries(s), src.files, dst.files), Hashes(recs))
  {
    var i := 0;
    while i < |recs|
      invariant 0 <= i <= |recs| && lt.Valid() && lt.Index == old(lt.Index)
      invariant Propagated(current, weather, paths, x0, Sides(Entries(s), src.files, dst.files), Hashes(recs[..i]))
    {
      PropagateNext(current, weather, recs, i, src, dst, s, paths, x0, lt);
      i := i + 1;
    }
    assert recs[..i] == recs;
  }

  // ---------- the merge and the new journal ----------

  /** No record is in both tables. */
  ghost predicate Separate(r: Table, s: Table) { forall k, j | k in r && j in s :: r[k] != s[j] }

  lemma TablesApart(r: Table, s: Table)
    requires r.Values !! s.Values
    ensures Separate(r, s)
  {
    forall k, j | k in r && j in s ensures r[k] != s[j] { assert r[k] in r.Values && s[j] in s.Values; }
  }

  /** The visitor of the merge: a file pushed from the remote replica is recorded as the local replica now holds it. */
  method MergeFileTreesVisitor(fs: FileStat, t: RbTree, files: Files, ghost s: Table, ghost keep: set<FileStat>)
    returns (ghost s': Table)
    requires t.Valid() && Keeps(t.Index, s) && (fs.instruction == UPDATED ==> fs.phash in files)
    requires keep !! Partner(s, fs.phash)
    modifies t, t.Nodes, Partner(s, fs.phash)
    ensures t.Valid() && Keeps(t.Index, s') && Grown(t)
    ensures Extends(s', s) && Kept(keep)
    ensures Entries(s') == Merged(old(Entries(s)), fs.phash, old(fs.ToEntry()), files)
  {
    if fs.instruction == UPDATED {
      s' := MergeFile(fs, t, files[fs.phash], s, keep);
    } else {
      s' := s;
    }
  }

  ghost function Merged(e: map<Hash, Entry>, k: Hash, r: Entry, local: Files): map<Hash, Entry> {
    match Merge(At(e, k), Some(r), At(local, k))
    case Some(m) => e[k := m]
    case None => e
  }

  method MergeFile(fs: FileStat, t: RbTree, vst: File, ghost s: Table, ghost keep: set<FileStat>)
    returns (ghost s': Table)
    requires t.Valid() && Keeps(t.Index, s) && keep !! Partner(s, fs.phash)
    modifies t, t.Nodes, Partner(s, fs.phash)
    ensures t.Valid() && Keeps(t.Index, s') && Grown(t)
    ensures Extends(s', s) && Kept(keep)
    ensures Entries(s') == old(Entries(s))[fs.phash := Entry(NONE, vst.mtime, vst.inode)]
  {
    var node, _ := t.Find(fs.phash);
    if node == null {
      assert fs.phash !in s;
      var st;
      st, s' := MergeNew(fs, t, vst, s, keep);
    } else {
      s' := s;
      assert s[fs.phash] == t.Index[fs.phash].data;
      RestatIn(t, node.data, vst, s, keep);
    }
  }

  /** A file that the tree does not know gets a copy of the record of the other tree. */
  method MergeNew(fs: FileStat, t: RbTree, vst: File, ghost s: Table, ghost keep: set<FileStat>)
    returns (st: FileStat, ghost s': Table)
    requires t.Valid() && Keeps(t.Index, s) && fs.phash !in s
    modifies t, t.Nodes
    ensures t.Valid() && Keeps(t.Index, s') && Grown(t)
    ensures s' == s[fs.phash := st] && fresh(st) && Kept(keep)
    ensures Entries(s') == old(Entries(s))[fs.phash := Entry(NONE, vst.mtime, vst.inode)]
  {
    ghost var e, c, v := Entries(s), fs.ToEntry(), Entry(NONE, vst.mtime, vst.inode);
    st, s' := InsertCopy(fs, t, s, keep);
    ghost var e1 := Entries(s');
    RestatIn(t, st, vst, s', keep);
    SetTwice(e, e1, Entries(s'), fs.phash, c, v);
  }

  lemma SetTwice(e: map<Hash, Entry>, e1: map<Hash, Entry>, e2: map<Hash, Entry>, k: Hash, c: Entry, v: Entry)
    requires e1 == e[k := c] && e2 == e1[k := v]
    ensures e2 == e[k := v]
  {
  }

  method InsertCopy(fs: FileStat, t: RbTree, ghost s: Table, ghost keep: set<FileStat>)
    returns (st: FileStat, ghost s': Table)
    requires t.Valid() && Keeps(t.Index, s) && fs.phash !in s
    modifies t, t.Nodes
    ensures t.Valid() && Keeps(t.Index, s') && Grown(t)
    ensures s' == s[fs.phash := st] && fresh(st) && st.phash == fs.phash && Kept(keep)
    ensures Entries(s') == old(Entries(s))[fs.phash := old(fs.ToEntry())]
  {
    ghost var e := Entries(s);
    st := new FileStat(fs.phash, fs.instruction, fs.modtime, fs.inode);
    SameEntries(s, e);
    s' := Inserted(t, st, s, keep);
  }

  method RestatIn(t: RbTree, st: FileStat, vst: File, ghost s: Table, ghost keep: set<FileStat>)
    requires t.Valid() && Named(s) && st.phash in s && s[st.phash] == st && st !in keep
    modifies st
    ensures Kept(keep)
    ensures t.Valid() && t.Nodes == old(t.Nodes) && t.Index == old(t.Index)
    ensures Entries(s) == old(Entries(s))[st.phash := Entry(NONE, vst.mtime, vst.inode)]
  {
    Restat(st, vst, s);
  }

  /** Takes over what the file operations tell of a file. */
  method Restat(st: FileStat, vst: File, ghost s: Table)
    requires Named(s) && st.phash in s && s[st.phash] == st
    modifies st
    ensures Entries(s) == old(Entries(s))[st.phash := Entry(NONE, vst.mtime, vst.inode)]
  {
    st.inode := vst.inode;
    st.modtime := vst.mtime;
    st.instruction := NONE;
  }

  /** The merge has folded the remote entries `r` of the hashes `done` into the local entries. */
  ghost predicate MergedUpTo(e0: map<Hash, Entry>, r: map<Hash, Entry>, files: Files, e: map<Hash, Entry>,
                             done: set<Hash>)
  {
    forall k :: At(e, k) == if k in done then Merge(At(e0, k), At(r, k), At(files, k)) else At(e0, k)
  }

  lemma MergedOne(e0: map<Hash, Entry>, r: map<Hash, Entry>, files: Files, e: map<Hash, Entry>, done: set<Hash>,
                  k: Hash)
    requires MergedUpTo(e0, r, files, e, done) && k !in done && k in r
    ensures MergedUpTo(e0, r, files, Merged(e, k, r[k], files), done + {k})
  {
  }

  method MergeNext(recs: seq<FileStat>, i: nat, t: RbTree, files: Files, ghost s: Table, ghost r: Table,
                   ghost e0: map<Hash, Entry>) returns (ghost s': Table)
    requires i < |recs| && Lists(recs, r) && t.Valid() && Keeps(t.Index, s) && Separate(r, s)
    requires Is(At(Entries(r), recs[i].phash), UPDATED) ==> recs[i].phash in files
    requires MergedUpTo(e0, Entries(r), files, Entries(s), Hashes(recs[..i]))
    modifies t, t.Nodes, Partner(s, recs[i].phash)
    ensures t.Valid() && Keeps(t.Index, s') && Grown(t) && Extends(s', s)
    ensures Entries(r) == old(Entries(r))
    ensures MergedUpTo(e0, Entries(r), files, Entries(s'), Hashes(recs[..i + 1]))
  {
    NextHash(recs, i);
    MergedOne(e0, Entries(r), files, Entries(s), Hashes(recs[..i]), recs[i].phash);
    s' := MergeBeside(recs[i], t, files, s, r);
  }

  /** The merge leaves the records of the remote tree alone. */
  method MergeBeside(fs: FileStat, t: RbTree, files: Files, ghost s: Table, ghost r: Table) returns (ghost s': Table)
    requires t.Valid() && Keeps(t.Index, s) && Separate(r, s) && (fs.instruction == UPDATED ==> fs.phash in files)
    modifies t, t.Nodes, Partner(s, fs.phash)
    ensures t.Valid() && Keeps(t.Index, s') && Grown(t) && Extends(s', s)
    ensures Entries(r) == old(Entries(r)) && Entries(s') == Merged(old(Entries(s)), fs.phash, old(fs.ToEntry()), files)
  {
    ghost var r0 := Entries(r);
    s' := MergeFileTreesVisitor(fs, t, files, s, r.Values);
    SameEntries(r, r0);
  }

  /** Merges the remote tree, whose records are listed, into the local one. */
  method MergeFileTrees(recs: seq<FileStat>, t: RbTree, files: Files, ghost s: Table, ghost r: Table)
    returns (ghost s': Table)
    requires Lists(recs, r) && Named(r) && t.Valid() && Keeps(t.Index, s) && r.Values !! s.Values
    requires forall k | Is(At(Entries(r), k), UPDATED) :: k in files
    modifies t, t.Nodes, s.Values
    ensures t.Valid() && Keeps(t.Index, s')
    ensures forall k :: At(Entries(s'), k) == Merge(At(old(Entries(s)), k), At(old(Entries(r)), k), At(files, k))
  {
    AllHashes(recs, r);
    TablesApart(r, s);
    s' := MergeFrom(recs, 0, t, files, s, r, Entries(s));
    assert recs[..|recs|] == recs;
  }

  /** The walk from the record at `i` on. */
  method MergeFrom(recs: seq<FileStat>, i: nat, t: RbTree, files: Files, ghost s: Table, ghost r: Table,
                   ghost e0: map<Hash, Entry>) returns (ghost s': Table)
    requires i <= |recs| && Lists(recs, r) && t.Valid() && Keeps(t.Index, s) && Separate(r, s)
    requires forall k | Is(At(Entries(r), k), UPDATED) :: k in files
    requires MergedUpTo(e0, Entries(r), files, Entries(s), Hashes(recs[..i]))
    modifies t, t.Nodes, s.Values
    ensures t.Valid() && Keeps(t.Index, s')
    ensures MergedUpTo(e0, old(Entries(r)), files, Entries(s'), Hashes(recs[..|recs|]))
    decreases |recs| - i
  {
    s' := s;
    if i < |recs| {
      s' := MergeNext(recs, i, t, files, s, r, e0);
      s' := MergeFrom(recs, i + 1, t, files, s', r, e0);
    }
  }

  /** The rows for the local records of the hashes `done`. */
  ghost predicate RowsFor(rows: map<Hash, Record>, e: map<Hash, Entry>, done: set<Hash>) {
    forall k :: At(rows, k) == if k in done then Journalled(At(e, k)) else None
  }

  /** The visitor that writes the journal: a row for a record that is settled or on its way. */
  method InsertMetadataVisitor(fs: FileStat, rows: map<Hash, Record>, ghost e: map<Hash, Entry>,
                               ghost done: set<Hash>) returns (rows': map<Hash, Record>)
    requires At(e, fs.phash) == Some(fs.ToEntry()) && fs.phash !in done && RowsFor(rows, e, done)
    ensures RowsFor(rows', e, done + {fs.phash})
  {
    rows' := rows;
    match fs.instruction {
      case NONE => rows' := rows[fs.phash := Record(fs.modtime, fs.inode)];
      case UPDATED => rows' := rows[fs.phash := Record(fs.modtime, fs.inode)];
      case CONFLICT => rows' := rows[fs.phash := Record(fs.modtime, fs.inode)];
      case _ =>
    }
  }

  method InsertMetadata(t: RbTree, ghost s: Table) returns (rows: map<Hash, Record>)
    requires t.Valid() && Keeps(t.Index, s)
    ensures forall k :: At(rows, k) == Journalled(At(Entries(s), k))
    ensures forall k :: k in rows <==> k in s && s[k].instruction in {NONE, UPDATED, CONFLICT}
    ensures forall k | k in rows :: rows[k] == Record(s[k].modtime, s[k].inode)
  {
    var recs := Records(t, s);
    rows := InsertAll(recs, s);
    RowsAre(rows, s);
  }

  lemma RowsAre(rows: map<Hash, Record>, s: Table)
    requires RowsFor(rows, Entries(s), s.Keys)
    ensures forall k :: k in rows <==> k in s && s[k].instruction in {NONE, UPDATED, CONFLICT}
    ensures forall k | k in rows :: rows[k] == Record(s[k].modtime, s[k].inode)
  {
    forall k ensures k in rows <==> k in s && s[k].instruction in {NONE, UPDATED, CONFLICT} { RowIs(rows, s, k); }
    forall k | k in rows ensures rows[k] == Record(s[k].modtime, s[k].inode) { RowIs(rows, s, k); }
  }

  lemma RowIs(rows: map<Hash, Record>, s: Table, k: Hash)
    requires At(rows, k) == if k in s.Keys then Journalled(At(Entries(s), k)) else None
    ensures k in rows <==> k in s && s[k].instruction in {NONE, UPDATED, CONFLICT}
    ensures k in rows ==> rows[k] == Record(s[k].modtime, s[k].inode)
  {
  }

  method InsertAll(recs: seq<FileStat>, ghost s: Table) returns (rows: map<Hash, Record>)
    requires Lists(recs, s) && Named(s)
    ensures RowsFor(rows, Entries(s), Hashes(recs))
  {
    ghost var e := Entries(s);
    rows := map[];
    var i := 0;
    while i < |recs|
      invariant 0 <= i <= |recs| && RowsFor(rows, e, Hashes(recs[..i]))
    {
      NextHash(recs, i);
      rows := InsertMetadataVisitor(recs[i], rows, e, Hashes(recs[..i]));
      i := i + 1;
    }
    assert recs[..i] == recs;
  }

  // ---------- the whole run ----------

  /** The listing shows of the files of a replica what the weather lets it see. */
  ghost predicate ListsFiles(order: seq<Hash>, w: World, weather: Weather, replica: Replica) {
    forall k :: k in order <==> k in FilesOf(w, replica) && Sees(weather, replica, k)
  }

  method UpdateBoth(w: World, weather: Weather, localOrder: seq<Hash>, remoteOrder: seq<Hash>)
    returns (lt: RbTree, rt: RbTree, ghost a: Table, ghost b: Table)
    requires ListsFiles(localOrder, w, weather, LOCAL) && ListsFiles(remoteOrder, w, weather, REMOTE)
    ensures fresh(lt) && fresh(lt.Nodes) && fresh(a.Values) && fresh(b.Values) && a.Values !! b.Values
    ensures lt.Valid() && rt.Valid() && Keeps(lt.Index, a) && Keeps(rt.Index, b)
    ensures SeenBoth(w, weather, Entries(a), Entries(b))
  {
    var nil := new RbNode.Sentinel();
    lt, a := UpdateNew(w, weather, LOCAL, localOrder, nil);
    rt, b := UpdateNew(w, weather, REMOTE, remoteOrder, nil);
  }

  method UpdateNew(w: World, weather: Weather, replica: Replica, order: seq<Hash>, nil: RbNode)
    returns (t: RbTree, ghost s: Table)
    requires nil.left == nil && nil.right == nil && nil.color == BLACK && nil.data == null
    requires ListsFiles(order, w, weather, replica)
    ensures fresh(t) && t.nil == nil && t.Valid() && Keeps(t.Index, s)
    ensures (forall n | n in t.Nodes :: fresh(n)) && forall k | k in s :: fresh(s[k])
    ensures forall k :: At(Entries(s), k) == EntryAt(w, weather, replica, k)
  {
    t := new RbTree(nil);
    s := Update(t, w, replica, order);
    AllDetected(Entries(s), w, weather, replica, order);
  }

  lemma AllDetected(e: map<Hash, Entry>, w: World, weather: Weather, replica: Replica, order: seq<Hash>)
    requires Detected(e, w, replica, order) && ListsFiles(order, w, weather, replica)
    ensures forall k :: At(e, k) == EntryAt(w, weather, replica, k)
  {
    forall k ensures At(e, k) == EntryAt(w, weather, replica, k) {
      assert At(e, k) == if k in order then SeenAt(w, replica, k) else None;
    }
  }

  /** Both passes, local tree first: at every path they do what the rules for one path say. */
  method ReconcileBoth(lrecs: seq<FileStat>, rrecs: seq<FileStat>, lt: RbTree, rt: RbTree, copies: bool,
                       ghost a: Table, ghost b: Table)
    requires lt.Valid() && rt.Valid() && Keeps(lt.Index, a) && Keeps(rt.Index, b) && a.Values !! b.Values
    requires Lists(lrecs, a) && Lists(rrecs, b)
    modifies a.Values, b.Values
    ensures lt.Valid() && Keeps(lt.Index, a)
    ensures forall k :: (At(Entries(a), k), At(Entries(b), k)) ==
              Reconcile(At(old(Entries(a)), k), At(old(Entries(b)), k), copies)
  {
    ghost var a0, b0, ix := Entries(a), Entries(b), lt.Index;
    AllHashes(lrecs, a);
    AllHashes(rrecs, b);
    ReconcileUpdates(lrecs, lt, rt, copies, a, b);
    ghost var a1, b1 := Entries(a), Entries(b);
    ReconcileUpdates(rrecs, rt, lt, copies, b, a);
    TwoPasses(a0, b0, a1, b1, Entries(a), Entries(b), copies);
  }

  lemma TwoPasses(a0: map<Hash, Entry>, b0: map<Hash, Entry>, a1: map<Hash, Entry>, b1: map<Hash, Entry>,
                  a: map<Hash, Entry>, b: map<Hash, Entry>, copies: bool)
    requires Passed(a0, b0, a1, b1, a0.Keys, copies) && Passed(b1, a1, b, a, b1.Keys, copies)
    ensures forall k :: (At(a, k), At(b, k)) == Reconcile(At(a0, k), At(b0, k), copies)
  {
  }

  /** Where the run stands after reconciliation: the entries are decided, the files are as they were. */
  ghost predicate Decisive(w: World, weather: Weather, copies: bool, ea: map<Hash, Entry>, eb: map<Hash, Entry>) {
    forall k :: (At(ea, k), At(eb, k)) == VerdictAt(w, weather, copies, k)
  }

  /** A remote entry that acts finds its file where it was: the local pass did nothing at its path. */
  lemma ActingFileStays(s: Spot, luck: Luck, copies: bool)
    ensures var (l, r) := Verdict(s, luck, copies);
            var m := Propagate(LOCAL, l, s.l, s.r, luck.fromLocal, luck.backs, luck.removes, luck.newRemote);
            Acts(r) ==> m.dst == s.r && s.r.Some?
  {
  }

  /** The first pass leaves what the second one needs: the files it acts on, and free names. */
  lemma SecondPassReady(w: World, weather: Weather, copies: bool, x0: Sides, x1: Sides, eb: map<Hash, Entry>)
    requires FreshNames(Paths(w), weather.copyName) && Decisive(w, weather, copies, x0.entries, eb) && x0.src == w.local
    requires x0.dst == w.remote
    requires Propagated(LOCAL, weather, Paths(w), x0, x1, x0.entries.Keys)
    ensures forall k | k in eb && Acts(At(eb, k)) :: k in x1.dst
    ensures forall k | k in Paths(w) :: weather.copyName(k) !in x1.src
  {
    forall k | k in eb && Acts(At(eb, k)) ensures k in x1.dst {
      assert (At(x0.entries, k), At(eb, k)) == VerdictAt(w, weather, copies, k);
      ActingFileStays(SpotAt(w, k), LuckAt(w, weather, k), copies);
      assert MoveOf(LOCAL, weather, x0, k).dst == At(x1.dst, k);
    }
    forall k | k in Paths(w) ensures weather.copyName(k) !in x1.src {
      assert At(x1.src, weather.copyName(k)) == At(x0.src, weather.copyName(k));
    }
  }

  /** What the passes, the merge and the new journal come to at one path. */
  lemma RunAtPath(w: World, weather: Weather, copies: bool, x0: Sides, x1: Sides, y0: Sides, y1: Sides,
                  e: map<Hash, Entry>, rows: map<Hash, Record>, k: Hash)
    requires FreshNames(Paths(w), weather.copyName) && Decisive(w, weather, copies, x0.entries, y0.entries)
    requires x0.src == w.local && x0.dst == w.remote
    requires Propagated(LOCAL, weather, Paths(w), x0, x1, x0.entries.Keys) && y0.src == x1.dst && y0.dst == x1.src
    requires Propagated(REMOTE, weather, Paths(w), y0, y1, y0.entries.Keys)
    requires At(e, k) == Merge(At(x1.entries, k), At(y1.entries, k), At(y1.dst, k))
    requires At(rows, k) == Journalled(At(e, k))
    requires k in Paths(w)
    ensures var o := RunAt(w, weather, copies, k);
            && o.spot == SpotAt(World(y1.dst, y1.src, Some(rows)), k)
            && o.localCopy == At(y1.dst, weather.copyName(k)) && o.remoteCopy == At(y1.src, weather.copyName(k))
  {
    var s, luck := SpotAt(w, k), LuckAt(w, weather, k);
    assert (At(x0.entries, k), At(y0.entries, k)) == Verdict(s, luck, copies);
    var m1, m2 := MoveOf(LOCAL, weather, x0, k), MoveOf(REMOTE, weather, y0, k);
    assert m1 == Moved(At(x1.entries, k), At(x1.src, k), At(x1.dst, k), At(x1.dst, weather.copyName(k)));
    assert m2 == Moved(At(y1.entries, k), At(y1.src, k), At(y1.dst, k), At(y1.dst, weather.copyName(k)));
    assert At(y1.src, weather.copyName(k)) == At(y0.src, weather.copyName(k));
    RunIs(s, luck, copies, m1, m2);
  }

  /** A run at one path, by its two moves. */
  lemma RunIs(s: Spot, luck: Luck, copies: bool, m1: Moved, m2: Moved)
    requires var (l, r) := Verdict(s, luck, copies);
             && m1 == Propagate(LOCAL, l, s.l, s.r, luck.fromLocal, luck.backs, luck.removes, luck.newRemote)
             && m2 == Propagate(REMOTE, r, m1.dst, m1.src, luck.fromRemote, luck.backs, luck.removes, luck.newLocal)
    ensures Run(s, luck, copies) == Outcome(Spot(m2.dst, m2.src, true, Journalled(Merge(m1.entry, m2.entry, m2.dst))),
              m2.copy, m1.copy)
  {
  }

  lemma RunComposes(w: World, weather: Weather, copies: bool, x0: Sides, x1: Sides, y0: Sides, y1: Sides,
                    e: map<Hash, Entry>, rows: map<Hash, Record>)
    requires FreshNames(Paths(w), weather.copyName) && Decisive(w, weather, copies, x0.entries, y0.entries)
    requires x0.src == w.local && x0.dst == w.remote
    requires Propagated(LOCAL, weather, Paths(w), x0, x1, x0.entries.Keys) && y0.src == x1.dst && y0.dst == x1.src
    requires Propagated(REMOTE, weather, Paths(w), y0, y1, y0.entries.Keys)
    requires forall k :: At(e, k) == Merge(At(x1.entries, k), At(y1.entries, k), At(y1.dst, k))
    requires forall k :: At(rows, k) == Journalled(At(e, k))
    ensures RunOf(w, World(y1.dst, y1.src, Some(rows)), weather, copies)
  {
    var w' := World(y1.dst, y1.src, Some(rows));
    forall k | k in Paths(w)
      ensures SpotAt(w', k) == RunAt(w, weather, copies, k).spot
      ensures At(w'.local, weather.copyName(k)) == RunAt(w, weather, copies, k).localCopy
      ensures At(w'.remote, weather.copyName(k)) == RunAt(w, weather, copies, k).remoteCopy
    {
      RunAtPath(w, weather, copies, x0, x1, y0, y1, e, rows, k);
    }
    forall k | k in w'.local.Keys + w'.remote.Keys ensures k in Paths(w) || IsName(Paths(w), weather.copyName, k) {
      assert k !in Paths(w) && !IsName(Paths(w), weather.copyName, k) ==>
               At(w'.local, k) == At(y0.dst, k) == At(x0.src, k) && At(w'.remote, k) == At(y0.src, k) == At(x0.dst, k);
    }
    forall k | k in rows ensures k in Paths(w) {
      assert At(e, k) == Merge(At(x1.entries, k), At(y1.entries, k), At(y1.dst, k));
      assert At(rows, k) == Journalled(At(e, k));
      assert (At(x0.entries, k), At(y0.entries, k)) == VerdictAt(w, weather, copies, k);
    }
  }

  /** Both propagation passes, local replica first. */
  method PropagateBoth(w: World, weather: Weather, copies: bool, ghost lt: RbTree, lrecs: seq<FileStat>,
                       rrecs: seq<FileStat>, local: Store, remote: Store, ghost a: Table, ghost b: Table,
                       ghost x0: Sides)
    returns (ghost x1: Sides, ghost y0: Sides)
    requires lt.Valid() && Lists(lrecs, a) && Lists(rrecs, b) && Named(a) && Named(b) && a.Values !! b.Values
    requires local != remote
    requires local.files == w.local && remote.files == w.remote && x0 == Sides(Entries(a), w.local, w.remote)
    requires FreshNames(Paths(w), weather.copyName) && Decisive(w, weather, copies, x0.entries, Entries(b))
    modifies a.Values, b.Values, local, remote
    ensures lt.Valid() && lt.Index == old(lt.Index)
    ensures Entries(a) == x1.entries && y0.src == x1.dst && y0.dst == x1.src && y0.entries == old(Entries(b))
    ensures Propagated(LOCAL, weather, Paths(w), x0, x1, x0.entries.Keys)
    ensures Propagated(REMOTE, weather, Paths(w), y0, Sides(Entries(b), remote.files, local.files), y0.entries.Keys)
  {
    FirstPass(w, weather, copies, lt, lrecs, local, remote, a, b, x0);
    x1 := Sides(Entries(a), local.files, remote.files);
    y0 := Sides(Entries(b), remote.files, local.files);
    SecondPassReady(w, weather, copies, x0, x1, y0.entries);
    PropagateBeside(REMOTE, weather, rrecs, remote, local, b, a, Paths(w), lt);
  }

  method FirstPass(w: World, weather: Weather, copies: bool, ghost lt: RbTree, lrecs: seq<FileStat>, local: Store,
                   remote: Store, ghost a: Table, ghost b: Table, ghost x0: Sides)
    requires lt.Valid() && Lists(lrecs, a) && Named(a) && a.Values !! b.Values && local != remote
    requires local.files == w.local && remote.files == w.remote && x0 == Sides(Entries(a), w.local, w.remote)
    requires FreshNames(Paths(w), weather.copyName) && Decisive(w, weather, copies, x0.entries, Entries(b))
    modifies a.Values, local, remote
    ensures lt.Valid() && lt.Index == old(lt.Index) && Entries(b) == old(Entries(b)) && b.Keys <= Paths(w)
    ensures Propagated(LOCAL, weather, Paths(w), x0, Sides(Entries(a), local.files, remote.files), x0.entries.Keys)
  {
    FirstPassReady(w, weather, copies, x0.entries, Entries(b), a.Keys, b.Keys);
    PropagateBeside(LOCAL, weather, lrecs, local, remote, a, b, Paths(w), lt);
  }

  lemma FirstPassReady(w: World, weather: Weather, copies: bool, ea: map<Hash, Entry>, eb: map<Hash, Entry>,
                       a: set<Hash>, b: set<Hash>)
    requires FreshNames(Paths(w), weather.copyName) && Decisive(w, weather, copies, ea, eb)
    requires a == ea.Keys && b == eb.Keys
    ensures a <= w.local.Keys && b <= w.remote.Keys && a <= Paths(w) && b <= Paths(w)
    ensures forall k | k in Paths(w) :: weather.copyName(k) !in w.remote && weather.copyName(k) !in w.local
  {
    DecidedPaths(w, weather, copies, ea, eb);
    NamesFree(w, weather);
  }

  /** A pass leaves the records of the other tree alone. */
  method PropagateBeside(current: Replica, weather: Weather, recs: seq<FileStat>, src: Store, dst: Store,
                         ghost s: Table, ghost other: Table, ghost paths: set<Hash>, ghost lt: RbTree)
    requires Lists(recs, s) && Named(s) && s.Keys <= paths && src != dst && FreshNames(paths, weather.copyName)
    requires lt.Valid()
    requires forall k | k in s && Acts(At(Entries(s), k)) :: k in src.files
    requires forall k | k in paths :: weather.copyName(k) !in dst.files
    requires s.Values !! other.Values
    modifies s.Values, src, dst
    ensures lt.Valid() && lt.Index == old(lt.Index)
    ensures Entries(other) == old(Entries(other))
    ensures Propagated(current, weather, paths, old(Sides(Entries(s), src.files, dst.files)),
              Sides(Entries(s), src.files, dst.files), old(Entries(s)).Keys)
  {
    ghost var e := Entries(other);
    PropagateFiles(current, weather, recs, src, dst, s, paths, lt);
    SameEntries(other, e);
  }

  lemma NamesFree(w: World, weather: Weather)
    requires FreshNames(Paths(w), weather.copyName)
    ensures forall k | k in Paths(w) :: weather.copyName(k) !in w.remote && weather.copyName(k) !in w.local
  {
  }

  /** Every decided entry has its file, and so its path. */
  lemma DecidedPaths(w: World, weather: Weather, copies: bool, ea: map<Hash, Entry>, eb: map<Hash, Entry>)
    requires Decisive(w, weather, copies, ea, eb)
    ensures (forall k | k in ea :: k in w.local) && (forall k | k in eb :: k in w.remote)
  {
    forall k | k in ea ensures k in w.local { assert (At(ea, k), At(eb, k)) == VerdictAt(w, weather, copies, k); }
    forall k | k in eb ensures k in w.remote { assert (At(ea, k), At(eb, k)) == VerdictAt(w, weather, copies, k); }
  }

  /** What a pushed file's record means for the merge: the local replica holds the file. */
  lemma UpdatedIsThere(w: World, weather: Weather, copies: bool, x0: Sides, x1: Sides, y0: Sides, y1: Sides)
    requires Decisive(w, weather, copies, x0.entries, y0.entries) && x0.src == w.local && x0.dst == w.remote
    requires Propagated(LOCAL, weather, Paths(w), x0, x1, x0.entries.Keys) && y0.src == x1.dst && y0.dst == x1.src
    requires Propagated(REMOTE, weather, Paths(w), y0, y1, y0.entries.Keys)
    ensures forall k | Is(At(y1.entries, k), UPDATED) :: k in y1.dst
  {
    forall k | Is(At(y1.entries, k), UPDATED) ensures k in y1.dst {
      assert (At(x0.entries, k), At(y0.entries, k)) == VerdictAt(w, weather, copies, k);
      PushedIsThere(SpotAt(w, k), LuckAt(w, weather, k), copies, At(y0.dst, k), At(y0.src, k));
      assert k in Paths(w) ==>
          MoveOf(REMOTE, weather, y0, k) ==
          Moved(At(y1.entries, k), At(y1.src, k), At(y1.dst, k), At(y1.dst, weather.copyName(k)));
    }
  }

  lemma PushedIsThere(s: Spot, luck: Luck, copies: bool, l: Option<File>, r: Option<File>)
    ensures var m := Propagate(REMOTE, Verdict(s, luck, copies).1, r, l,
                               luck.fromRemote, luck.backs, luck.removes, luck.newLocal);
            !Is(Verdict(s, luck, copies).1, UPDATED) && (Is(m.entry, UPDATED) ==> m.dst.Some?)
  {
  }

  /** The merge of the trees and the new journal. */
  method Commit(recs: seq<FileStat>, lt: RbTree, local: Store, ghost a: Table, ghost b: Table)
    returns (rows: map<Hash, Record>, ghost e: map<Hash, Entry>)
    requires Lists(recs, b) && Named(b) && lt.Valid() && Keeps(lt.Index, a) && b.Values !! a.Values
    requires forall k | Is(At(Entries(b), k), UPDATED) :: k in local.files
    modifies lt, lt.Nodes, a.Values
    ensures forall k :: At(e, k) == Merge(At(old(Entries(a)), k), At(old(Entries(b)), k), At(old(local.files), k))
    ensures forall k :: At(rows, k) == Journalled(At(e, k))
  {
    ghost var a' := MergeFileTrees(recs, lt, local.files, a, b);
    e := Entries(a');
    rows := InsertMetadata(lt, a');
  }

  /** A whole run. Whatever the order in which the directories list the files, and in which the trees are walked, the
      replicas and the journal change at every path as the rules for one path say. */
  method Synchronize(w: World, weather: Weather, copies: bool, localOrder: seq<Hash>, remoteOrder: seq<Hash>)
    returns (w': World)
    requires ListsFiles(localOrder, w, weather, LOCAL) && ListsFiles(remoteOrder, w, weather, REMOTE)
    requires FreshNames(Paths(w), weather.copyName)
    ensures RunOf(w, w', weather, copies)
  {
    var lt, rt;
    ghost var a, b;
    lt, rt, a, b := UpdateBoth(w, weather, localOrder, remoteOrder);
    w' := WalkAndFinish(w, weather, copies, lt, rt, a, b);
  }

  /** What walks of the two trees list, and the rest of the run. */
  method WalkAndFinish(w: World, weather: Weather, copies: bool, lt: RbTree, rt: RbTree, ghost a: Table, ghost b: Table)
    returns (w': World)
    requires lt.Valid() && rt.Valid() && Keeps(lt.Index, a) && Keeps(rt.Index, b) && a.Values !! b.Values
    requires SeenBoth(w, weather, Entries(a), Entries(b)) && FreshNames(Paths(w), weather.copyName)
    modifies lt, lt.Nodes, a.Values, b.Values
    ensures RunOf(w, w', weather, copies)
  {
    var lrecs, rrecs := ListBoth(lt, rt, a, b);
    w' := ReconcileAndFinish(w, weather, copies, lrecs, rrecs, lt, rt, a, b);
  }

  method ListBoth(lt: RbTree, rt: RbTree, ghost a: Table, ghost b: Table)
    returns (lrecs: seq<FileStat>, rrecs: seq<FileStat>)
    requires lt.Valid() && rt.Valid() && Keeps(lt.Index, a) && Keeps(rt.Index, b)
    ensures Lists(lrecs, a) && Lists(rrecs, b)
  {
    lrecs := Records(lt, a);
    rrecs := Records(rt, b);
  }

  method ReconcileAndFinish(w: World, weather: Weather, copies: bool, lrecs: seq<FileStat>, rrecs: seq<FileStat>,
                            lt: RbTree, rt: RbTree, ghost a: Table, ghost b: Table) returns (w': World)
    requires lt.Valid() && rt.Valid() && Keeps(lt.Index, a) && Keeps(rt.Index, b) && a.Values !! b.Values
    requires Lists(lrecs, a) && Lists(rrecs, b)
    requires SeenBoth(w, weather, Entries(a), Entries(b)) && FreshNames(Paths(w), weather.copyName)
    modifies lt, lt.Nodes, a.Values, b.Values
    ensures RunOf(w, w', weather, copies)
  {
    ghost var ea, eb := Entries(a), Entries(b);
    ReconcileBoth(lrecs, rrecs, lt, rt, copies, a, b);
    BecomeDecisive(w, weather, copies, ea, eb, Entries(a), Entries(b));
    w' := Carry(w, weather, copies, lrecs, rrecs, lt, a, b);
  }

  /** The entries after update detection. */
  ghost predicate SeenBoth(w: World, weather: Weather, ea: map<Hash, Entry>, eb: map<Hash, Entry>) {
    && (forall k :: At(ea, k) == EntryAt(w, weather, LOCAL, k))
    && (forall k :: At(eb, k) == EntryAt(w, weather, REMOTE, k))
  }

  lemma BecomeDecisive(w: World, weather: Weather, copies: bool, ea: map<Hash, Entry>, eb: map<Hash, Entry>,
                       ea': map<Hash, Entry>, eb': map<Hash, Entry>)
    requires SeenBoth(w, weather, ea, eb)
    requires forall k :: (At(ea', k), At(eb', k)) == Reconcile(At(ea, k), At(eb, k), copies)
    ensures Decisive(w, weather, copies, ea', eb')
  {
    forall k ensures (At(ea', k), At(eb', k)) == VerdictAt(w, weather, copies, k) {
      assert At(ea, k) == EntryAt(w, weather, LOCAL, k) && At(eb, k) == EntryAt(w, weather, REMOTE, k);
    }
  }

  /** Propagation, the merge and the journal, from decided entries. */
  method Carry(w: World, weather: Weather, copies: bool, lrecs: seq<FileStat>, rrecs: seq<FileStat>, lt: RbTree,
               ghost a: Table, ghost b: Table) returns (w': World)
    requires lt.Valid() && Keeps(lt.Index, a) && Lists(lrecs, a) && Lists(rrecs, b) && Named(b) && a.Values !! b.Values
    requires FreshNames(Paths(w), weather.copyName) && Decisive(w, weather, copies, Entries(a), Entries(b))
    modifies lt, lt.Nodes, a.Values, b.Values
    ensures RunOf(w, w', weather, copies)
  {
    var local, remote := NewStores(w, a, b);
    ghost var x0 := Sides(Entries(a), w.local, w.remote);
    ghost var x1, y0 := PropagateBoth(w, weather, copies, lt, lrecs, rrecs, local, remote, a, b, x0);
    w' := Close(w, weather, copies, rrecs, lt, local, remote, a, b, x0, x1, y0);
  }

  method NewStores(w: World, ghost a: Table, ghost b: Table) returns (local: Store, remote: Store)
    ensures fresh(local) && fresh(remote) && local != remote && local.files == w.local && remote.files == w.remote
    ensures Entries(a) == old(Entries(a)) && Entries(b) == old(Entries(b))
  {
    local := new Store(w.local);
    remote := new Store(w.remote);
    SameEntries(a, old(Entries(a)));
    SameEntries(b, old(Entries(b)));
  }

  method Close(w: World, weather: Weather, copies: bool, rrecs: seq<FileStat>, lt: RbTree, local: Store,
               remote: Store, ghost a: Table, ghost b: Table, ghost x0: Sides, ghost x1: Sides, ghost y0: Sides)
    returns (w': World)
    requires Lists(rrecs, b) && Named(b) && lt.Valid() && Keeps(lt.Index, a) && b.Values !! a.Values
    requires Entries(a) == x1.entries
    requires FreshNames(Paths(w), weather.copyName) && Decisive(w, weather, copies, x0.entries, y0.entries)
    requires x0.src == w.local && x0.dst == w.remote
    requires Propagated(LOCAL, weather, Paths(w), x0, x1, x0.entries.Keys) && y0.src == x1.dst && y0.dst == x1.src
    requires Propagated(REMOTE, weather, Paths(w), y0, Sides(Entries(b), remote.files, local.files), y0.entries.Keys)
    modifies lt, lt.Nodes, a.Values
    ensures RunOf(w, w', weather, copies)
  {
    ghost var y1 := Sides(Entries(b), remote.files, local.files);
    UpdatedIsThere(w, weather, copies, x0, x1, y0, y1);
    w' := World(local.files, remote.files, None);
    var rows;
    ghost var e;
    rows, e := Commit(rrecs, lt, local, a, b);
    w' := w'.(journal := Some(rows));
    RunComposes(w, weather, copies, x0, x1, y0, y1, e, rows);
  }
}

/** One path through a whole synchronisation run: update detection, the two reconcile passes, propagation,
    the tree merge and the journal, each as a function of what the run finds at that path. */
module SyncRules {
  import opened Options

  datatype Replica = LOCAL | REMOTE

  datatype Instruction =
    NONE | EVAL | REMOVE | RENAME | NEW | CONFLICT | IGNORE | SYNC | STAT_ERROR | ERROR | DELETED | UPDATED

  newtype Byte = b: int | 0 <= b < 256
  type Content = seq<Byte>

  datatype File = File(content: Content, mtime: int, inode: nat, nlink: nat)

  /** A row of the journal. */
  datatype Record = Record(mtime: int, inode: nat)

  /** The part of a tree entry that the phases look at. */
  datatype Entry = Entry(instruction: Instruction, mtime: int, inode: nat)

  // ---------- update detection ----------

  /** `renamed` tells whether some row of the journal has the inode of the file. */
  function Detect(replica: Replica, f: File, journal: bool, row: Option<Record>, renamed: bool): Instruction {
    if f.nlink > 1 then IGNORE
    else if !journal then NEW
    else match row
      case Some(j) => if f.mtime > j.mtime then EVAL else NONE
      case None => if replica == LOCAL && renamed then RENAME else NEW
  }

  // ---------- reconciliation ----------

  function VisitAlone(i: Instruction): Instruction {
    match i
    case EVAL => NEW
    case NONE => REMOVE
    case RENAME => NEW
    case _ => i
  }

  /** The visitor at an entry `cur` whose path the other tree has as `other`: the new instructions of both. */
  function VisitPair(cur: Entry, other: Entry, copies: bool): (Instruction, Instruction) {
    var push := if copies then CONFLICT else SYNC;
    match cur.instruction
    case NEW => (
      match other.instruction
      case NEW =>
        if cur.mtime > other.mtime then (push, NONE)
        else if cur.mtime < other.mtime then (NONE, push)
        else (NONE, NONE)
      case EVAL => (if cur.mtime > other.mtime then push else NONE, other.instruction)
      case NONE => (SYNC, other.instruction)
      case _ => (cur.instruction, other.instruction)
    )
    case EVAL => (
      match other.instruction
      case NEW => (if cur.mtime > other.mtime then push else NONE, other.instruction)
      case EVAL =>
        if cur.mtime > other.mtime then (push, if copies then NONE else other.instruction)
        else (NONE, if copies then CONFLICT else other.instruction)
      case NONE => (SYNC, other.instruction)
      case _ => (cur.instruction, other.instruction)
    )
    case _ => (cur.instruction, other.instruction)
  }

  /** One pass over the tree of `cur` at this path: the entries it leaves in its own tree and in the other. */
  function Pass(cur: Option<Entry>, other: Option<Entry>, copies: bool): (Option<Entry>, Option<Entry>) {
    match cur
    case None => (cur, other)
    case Some(c) =>
      match other
      case None => (Some(c.(instruction := VisitAlone(c.instruction))), other)
      case Some(o) =>
        var (ci, oi) := VisitPair(c, o, copies);
        (Some(c.(instruction := ci)), Some(o.(instruction := oi)))
  }

  /** Both passes, local tree first. */
  function Reconcile(l: Option<Entry>, r: Option<Entry>, copies: bool): (Option<Entry>, Option<Entry>) {
    var (l1, r1) := Pass(l, r, copies);
    var (r2, l2) := Pass(r1, l1, copies);
    (l2, r2)
  }

  predicate Is(e: Option<Entry>, i: Instruction) { e.Some? && e.value.instruction == i }
  predicate Pushes(e: Option<Entry>) { Is(e, NEW) || Is(e, SYNC) || Is(e, CONFLICT) }
  predicate Acts(e: Option<Entry>) { Pushes(e) || Is(e, REMOVE) }

  // ---------- a path before and during a run ----------

  /** What a run finds at one path. */
  datatype Spot = Spot(l: Option<File>, r: Option<File>, journal: bool, row: Option<Record>)

  /** How a push ends: it works; it works, but the time cannot be set; it fails before the rename; or it fails after it,
      when the file is in place already. A file whose time is not set has the time of its writing. */
  datatype Push = Done | Undated(time: int) | Lost | Placed(time: int)

  /** What the world adds: which files the listings of a run come to see, how a push from either side ends, whether the
      backup of a conflict and the removal of a file work, the inodes that new files get, and renames. */
  datatype Luck = Luck(
    seesLocal: bool, seesRemote: bool, fromLocal: Push, fromRemote: Push, backs: bool, removes: bool,
    newLocal: nat, newRemote: nat, renamed: bool)

  function Seen(replica: Replica, f: Option<File>, s: Spot, renamed: bool): Option<Entry> {
    match f
    case None => None
    case Some(g) => Some(Entry(Detect(replica, g, s.journal, s.row, renamed), g.mtime, g.inode))
  }

  function Decided(s: Spot, renamed: bool, copies: bool): (Option<Entry>, Option<Entry>) {
    Reconcile(Seen(LOCAL, s.l, s, renamed), Seen(REMOTE, s.r, s, renamed), copies)
  }

  /** What the listings show of a path. */
  function View(s: Spot, luck: Luck): Spot {
    s.(l := if luck.seesLocal then s.l else None, r := if luck.seesRemote then s.r else None)
  }

  function Verdict(s: Spot, luck: Luck, copies: bool): (Option<Entry>, Option<Entry>) {
    Decided(View(s, luck), luck.renamed, copies)
  }

  // ---------- propagation ----------

  predicate Works(push: Push) { push.Done? || push.Undated? }

  /** The entry, the file it came from, the file on the opposite replica, and the conflict copy left there. */
  datatype Moved = Moved(entry: Option<Entry>, src: Option<File>, dst: Option<File>, copy: Option<File>)

  /** What is at the destination after a push, if `dst` was there before. */
  function Delivered(e: Entry, src: File, push: Push, inode: nat, dst: Option<File>): Option<File> {
    match push
    case Done => Some(File(src.content, e.mtime, inode, 1))
    case Lost => dst
    case Undated(time) => Some(File(src.content, time, inode, 1))
    case Placed(time) => Some(File(src.content, time, inode, 1))
  }

  function Propagate(current: Replica, e: Option<Entry>, src: Option<File>, dst: Option<File>,
                     push: Push, backs: bool, removes: bool, inode: nat): Moved
  {
    if e.None? || src.None? then Moved(e, src, dst, None) else
    var done := Some(e.value.(instruction := if Works(push) then UPDATED else ERROR));
    match e.value.instruction
    case NEW | SYNC => Moved(done, src, Delivered(e.value, src.value, push, inode, dst), None)
    case REMOVE =>
      if removes then Moved(Some(e.value.(instruction := DELETED)), None, dst, None)
      else Moved(Some(e.value.(instruction := NONE)), src, dst, None)
    case CONFLICT =>
      var new_ := Delivered(e.value, src.value, push, inode, if backs then None else dst);
      var equal := current == REMOTE && new_.Some? && dst.Some? && new_.value.content == dst.value.content;
      Moved(done, src, new_, if backs && !(equal && removes) then dst else None)
    case _ => Moved(e, src, dst, None)
  }

  /** A remote entry that was pushed is merged into the local tree with what the local replica now holds. */
  function Merge(l: Option<Entry>, r: Option<Entry>, f: Option<File>): Option<Entry> {
    if Is(r, UPDATED) && f.Some? then Some(Entry(NONE, f.value.mtime, f.value.inode)) else l
  }

  function Journalled(l: Option<Entry>): Option<Record> {
    if Is(l, NONE) || Is(l, UPDATED) || Is(l, CONFLICT) then Some(Record(l.value.mtime, l.value.inode)) else None
  }

  /** What a run leaves: the spot for the next run, and the conflict copies on either replica. */
  datatype Outcome = Outcome(spot: Spot, localCopy: Option<File>, remoteCopy: Option<File>)

  /** Propagation, the merge and the journal, for the decided entries of a path. */
  function Carry(s: Spot, luck: Luck, l: Option<Entry>, r: Option<Entry>): Outcome {
    var m1 := Propagate(LOCAL, l, s.l, s.r, luck.fromLocal, luck.backs, luck.removes, luck.newRemote);
    var m2 := Propagate(REMOTE, r, m1.dst, m1.src, luck.fromRemote, luck.backs, luck.removes, luck.newLocal);
    Outcome(Spot(m2.dst, m2.src, true, Journalled(Merge(m1.entry, m2.entry, m2.dst))), m2.copy, m1.copy)
  }

  function Run(s: Spot, luck: Luck, copies: bool): Outcome {
    var (l, r) := Verdict(s, luck, copies);
    Carry(s, luck, l, r)
  }
}

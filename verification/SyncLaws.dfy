/** What a run guarantees at every path. */
module SyncLaws {
  import opened Options
  import opened SyncRules

  predicate Linked(f: Option<File>) { f.Some? && f.value.nlink > 1 }
  predicate Known(s: Spot) { s.journal && s.row.Some? }

  /** The file differs from what the journal remembers: it is new, or newer than its row. */
  predicate Changed(f: Option<File>, s: Spot) {
    f.Some? && (Known(s) ==> f.value.mtime > s.row.value.mtime)
  }

  /** The file has a single link, and is as the journal remembers it. */
  predicate Remembered(f: Option<File>, s: Spot) { f.Some? && !Linked(f) && Known(s) && !Changed(f, s) }

  predicate Agree(a: Option<File>, b: Option<File>) {
    match (a, b)
    case (None, None) => true
    case (Some(f), Some(g)) => f.content == g.content && f.mtime == g.mtime
    case _ => false
  }

  /** After both passes at most one replica's entry acts. */
  lemma AtMostOneActs(s: Spot, renamed: bool, copies: bool)
    ensures var (l, r) := Decided(s, renamed, copies); !(Acts(l) && Acts(r))
  {
  }

  /** A file is removed exactly when the journal knows its path, it is not newer than its row, and the other replica
      lost it. */
  lemma RemovalExactly(s: Spot, renamed: bool, copies: bool)
    ensures var (l, r) := Decided(s, renamed, copies);
            && (Is(l, REMOVE) <==> Remembered(s.l, s) && s.r.None?)
            && (Is(r, REMOVE) <==> Remembered(s.r, s) && s.l.None?)
  {
  }

  /** When both files changed and neither is linked or renamed, the newer one is pushed; only the journal breaks
      ties. */
  lemma NewestWins(s: Spot, renamed: bool, copies: bool)
    requires Changed(s.l, s) && Changed(s.r, s) && !Linked(s.l) && !Linked(s.r) && !(renamed && s.journal && !Known(s))
    ensures var (l, r) := Decided(s, renamed, copies);
            && (Pushes(l) <==> s.l.value.mtime > s.r.value.mtime)
            && (Pushes(r) <==> s.l.value.mtime < s.r.value.mtime || (s.l.value.mtime == s.r.value.mtime && Known(s)))
  {
  }

  /** Update detection takes the local file for a renamed one. */
  predicate Renames(s: Spot, renamed: bool) { s.journal && !Known(s) && renamed }

  /** The decision for the local file, as a table. */
  function LocalRuling(s: Spot, renamed: bool, copies: bool): Option<Instruction> {
    if s.l.None? then None
    else if Linked(s.l) then Some(IGNORE)
    else if s.r.None? then Some(if Remembered(s.l, s) then REMOVE else NEW)
    else if Renames(s, renamed) then Some(RENAME)
    else if Linked(s.r) then Some(if !Changed(s.l, s) then NONE else if Known(s) then EVAL else NEW)
    else if !Changed(s.l, s) then Some(NONE)
    else if !Changed(s.r, s) then Some(SYNC)
    else if s.l.value.mtime > s.r.value.mtime then Some(if copies then CONFLICT else SYNC)
    else Some(NONE)
  }

  /** And for the remote file; it never looks renamed, and wins a tie of two edits. */
  function RemoteRuling(s: Spot, renamed: bool, copies: bool): Option<Instruction> {
    if s.r.None? then None
    else if Linked(s.r) then Some(IGNORE)
    else if s.l.None? then Some(if Remembered(s.r, s) then REMOVE else NEW)
    else if Linked(s.l) then Some(if !Changed(s.r, s) then NONE else if Known(s) then EVAL else NEW)
    else if Renames(s, renamed) then Some(NEW)
    else if !Changed(s.r, s) then Some(NONE)
    else if !Changed(s.l, s) then Some(SYNC)
    else if s.r.value.mtime > s.l.value.mtime || (Known(s) && s.r.value.mtime == s.l.value.mtime) then
      Some(if copies then CONFLICT else SYNC)
    else Some(if Known(s) && !copies then EVAL else NONE)
  }

  /** An entry for the file with this instruction. */
  function Entered(f: Option<File>, i: Option<Instruction>): Option<Entry> {
    if f.Some? && i.Some? then Some(Entry(i.value, f.value.mtime, f.value.inode)) else None
  }

  /** Update detection and the two passes, with all their switches, decide as the tables say. */
  lemma DecisionTable(s: Spot, renamed: bool, copies: bool)
    ensures Decided(s, renamed, copies) ==
              (Entered(s.l, LocalRuling(s, renamed, copies)), Entered(s.r, RemoteRuling(s, renamed, copies)))
  {
    if s.l.Some? && s.r.Some? {
      if Known(s) { TableKnown(s, renamed, copies); } else { TableUnknown(s, renamed, copies); }
    } else { }
  }

  lemma TableKnown(s: Spot, renamed: bool, copies: bool)
    requires s.l.Some? && s.r.Some? && Known(s)
    ensures Decided(s, renamed, copies) ==
              (Entered(s.l, LocalRuling(s, renamed, copies)), Entered(s.r, RemoteRuling(s, renamed, copies)))
  {
  }

  lemma TableUnknown(s: Spot, renamed: bool, copies: bool)
    requires s.l.Some? && s.r.Some? && !Known(s)
    ensures Decided(s, renamed, copies) ==
              (Entered(s.l, LocalRuling(s, renamed, copies)), Entered(s.r, RemoteRuling(s, renamed, copies)))
  {
  }

  /** The visitor at any pair of entries: an entry that is new or changed beats one at rest without a conflict, and
      otherwise only a newer one is pushed. It rules on the other side too if both are new, or both changed and copies
      are made; then one that is not newer lets the other win, except that new files of one age both rest. */
  lemma VisitRules(cur: Entry, other: Entry, copies: bool)
    ensures var (c, o) := VisitPair(cur, other, copies); var newer := cur.mtime > other.mtime;
            var push := if copies then CONFLICT else SYNC;
            var i, j := cur.instruction, other.instruction;
            && c == (if i !in {NEW, EVAL} || j !in {NEW, EVAL, NONE} then i
                     else if j == NONE then SYNC else if newer then push else NONE)
            && o == if i == j == NEW || (copies && i == j == EVAL)
                    then if newer || (i == NEW && cur.mtime == other.mtime) then NONE else push
                    else j
  {
  }

  /** Two files that the run compares: both fresh, neither linked nor taken for renamed. */
  predicate Compared(s: Spot, renamed: bool) {
    Changed(s.l, s) && Changed(s.r, s) && !Linked(s.l) && !Linked(s.r) && !Renames(s, renamed)
  }

  /** A conflict is declared exactly between two files that are compared, with conflict copies on, on the side of the
      winner. */
  lemma ConflictExactly(s: Spot, renamed: bool, copies: bool)
    ensures var (l, r) := Decided(s, renamed, copies);
            && (Is(l, CONFLICT) <==> copies && Compared(s, renamed) && s.l.value.mtime > s.r.value.mtime)
            && (Is(r, CONFLICT) <==>
                  && copies && Compared(s, renamed)
                  && (s.r.value.mtime > s.l.value.mtime || (Known(s) && s.r.value.mtime == s.l.value.mtime)))
  {
  }

  /** A conflict needs a file on both sides, and stands on one side only; the other one rests. */
  lemma ConflictSides(s: Spot, renamed: bool, copies: bool)
    ensures var (l, r) := Decided(s, renamed, copies);
            && (Is(l, CONFLICT) ==> copies && s.l.Some? && s.r.Some? && !Acts(r) && s.l.value.mtime > s.r.value.mtime)
            && (Is(r, CONFLICT) ==> copies && s.l.Some? && s.r.Some? && Is(l, NONE))
  {
  }

  // ---------- convergence ----------

  /** Nothing is pushed or removed at this path. */
  predicate Quiet(s: Spot, renamed: bool) {
    match (s.l, s.r)
    case (None, None) => true
    case (Some(l), None) => Linked(s.l)
    case (None, Some(r)) => Linked(s.r)
    case (Some(l), Some(r)) =>
      if Linked(s.l) then Linked(s.r) || Known(s)
      else if Linked(s.r) then Known(s) || (s.journal && renamed)
      else if Known(s) then !Changed(s.l, s) && !Changed(s.r, s)
      else !(s.journal && renamed) && l.mtime == r.mtime
  }

  predicate Complete(luck: Luck) { luck.seesLocal && luck.seesRemote }

  /** Every operation of the run works. */
  predicate Fortunate(luck: Luck) {
    Complete(luck) && luck.fromLocal == Done && luck.fromRemote == Done && luck.backs && luck.removes
  }

  /** An error-free run makes the replicas agree at a path, unless they disagree there and nothing moves. */
  lemma ConvergesExactly(s: Spot, luck: Luck, copies: bool)
    requires Fortunate(luck)
    ensures var s' := Run(s, luck, copies).spot;
            Agree(s'.l, s'.r) <==> (Quiet(s, luck.renamed) ==> Agree(s.l, s.r))
  {
    if s.l.Some? && s.r.Some? {
      if Known(s) { ConvergesKnown(s, luck, copies); } else { ConvergesUnknown(s, luck, copies); }
    }
  }

  lemma ConvergesKnown(s: Spot, luck: Luck, copies: bool)
    requires Fortunate(luck) && s.l.Some? && s.r.Some? && Known(s)
    ensures var s' := Run(s, luck, copies).spot;
            Agree(s'.l, s'.r) <==> (Quiet(s, luck.renamed) ==> Agree(s.l, s.r))
  {
  }

  lemma ConvergesUnknown(s: Spot, luck: Luck, copies: bool)
    requires Fortunate(luck) && s.l.Some? && s.r.Some? && !Known(s)
    ensures var s' := Run(s, luck, copies).spot;
            Agree(s'.l, s'.r) <==> (Quiet(s, luck.renamed) ==> Agree(s.l, s.r))
  {
    if copies { ConvergesCopying(s, luck, copies); } else { ConvergesPlain(s, luck, copies); }
  }

  lemma ConvergesCopying(s: Spot, luck: Luck, copies: bool)
    requires Fortunate(luck) && s.l.Some? && s.r.Some? && !Known(s) && copies
    ensures var s' := Run(s, luck, copies).spot;
            Agree(s'.l, s'.r) <==> (Quiet(s, luck.renamed) ==> Agree(s.l, s.r))
  {
  }

  lemma ConvergesPlain(s: Spot, luck: Luck, copies: bool)
    requires Fortunate(luck) && s.l.Some? && s.r.Some? && !Known(s) && !copies
    ensures var s' := Run(s, luck, copies).spot;
            Agree(s'.l, s'.r) <==> (Quiet(s, luck.renamed) ==> Agree(s.l, s.r))
  {
  }

  /** What the convergence theorem asks of a path: single links, edits that raise the time, and equal contents behind
      equal times. */
  predicate Sound(s: Spot, renamed: bool) {
    && !Linked(s.l) && !Linked(s.r)
    && (Known(s) && s.l.Some? ==> s.l.value.mtime >= s.row.value.mtime)
    && (Known(s) && s.r.Some? ==> s.r.value.mtime >= s.row.value.mtime)
    && (s.l.Some? && s.r.Some? && !Known(s) && s.journal ==> !renamed)
    && (s.l.Some? && s.r.Some? && s.l.value.mtime == s.r.value.mtime && !(Known(s) && Changed(s.l, s)) ==>
          s.l.value.content == s.r.value.content)
  }

  /** The replicas agree at this path, and the journal says what they hold. */
  predicate InSync(s: Spot) {
    && Agree(s.l, s.r) && !Linked(s.l) && !Linked(s.r) && s.journal
    && s.row == (if s.l.None? then None else Some(Record(s.l.value.mtime, s.l.value.inode)))
  }

  /** An error-free run makes a sound path settled. */
  lemma Settles(s: Spot, luck: Luck, copies: bool)
    requires Fortunate(luck) && Sound(s, luck.renamed)
    ensures InSync(Run(s, luck, copies).spot)
  {
    if s.l.Some? && s.r.Some? {
      if Known(s) { SettlesKnown(s, luck, copies); } else { SettlesUnknown(s, luck, copies); }
    } else { }
  }

  lemma SettlesKnown(s: Spot, luck: Luck, copies: bool)
    requires Fortunate(luck) && Sound(s, luck.renamed) && s.l.Some? && s.r.Some? && Known(s)
    ensures InSync(Run(s, luck, copies).spot)
  {
  }

  lemma SettlesUnknown(s: Spot, luck: Luck, copies: bool)
    requires Fortunate(luck) && Sound(s, luck.renamed) && s.l.Some? && s.r.Some? && !Known(s)
    ensures InSync(Run(s, luck, copies).spot)
  {
  }

  /** The listings of a run show enough of a settled path: what is missed there is either not there, or the remote file,
      and then the removal of the local one fails. */
  predicate Shown(s: Spot, luck: Luck) { s.l.None? || (luck.seesLocal && (luck.seesRemote || !luck.removes)) }

  /** At a settled path a run does nothing exactly if its listings show enough, whatever else its luck. */
  lemma InSyncStays(s: Spot, luck: Luck, copies: bool)
    requires InSync(s)
    ensures Run(s, luck, copies) == Outcome(s, None, None) <==> Shown(s, luck)
    ensures Run(s, luck, copies).localCopy == None && Run(s, luck, copies).remoteCopy == None
    ensures Complete(luck) ==> var (l, r) := Verdict(s, luck, copies); !Acts(l) && !Acts(r)
  {
  }

  /** From a sound path an error-free run ends with equal replicas and a journal of exactly what they hold, and the next
      run does nothing, unless its listings miss a file. */
  lemma Converges(s: Spot, luck: Luck, copies: bool, luck': Luck, copies': bool)
    requires Fortunate(luck) && Sound(s, luck.renamed)
    ensures var s' := Run(s, luck, copies).spot;
            && InSync(s') && (Run(s', luck', copies') == Outcome(s', None, None) <==> Shown(s', luck'))
            && (Complete(luck') ==> var (l, r) := Verdict(s', luck', copies'); !Acts(l) && !Acts(r))
  {
    Settles(s, luck, copies);
    InSyncStays(Run(s, luck, copies).spot, luck', copies');
  }

  // ---------- what a run removes, and what the next one may ----------

  /** Both listings show a file. */
  predicate BothSeen(s: Spot, luck: Luck) { s.l.Some? && s.r.Some? && Complete(luck) }

  /** The run moves the loser of a conflict aside, and then fails to put the winner in its place. */
  predicate Displaces(s: Spot, luck: Luck, copies: bool, winner: Replica) {
    var (l, r) := Verdict(s, luck, copies);
    luck.backs && if winner == LOCAL then Is(l, CONFLICT) && luck.fromLocal == Lost
                  else Is(r, CONFLICT) && luck.fromRemote == Lost
  }

  /** The run removes the file: it is as the journal remembers it, and the listing of the other replica shows none. */
  predicate Removes(s: Spot, luck: Luck, victim: Replica) {
    luck.removes && if victim == LOCAL then luck.seesLocal && Remembered(s.l, s) && !(s.r.Some? && luck.seesRemote)
                    else luck.seesRemote && Remembered(s.r, s) && !(s.l.Some? && luck.seesLocal)
  }

  /** The file that a push puts in place. */
  function Arrived(src: File, push: Push, inode: nat): File
    requires push != Lost
  {
    File(src.content, if push == Done then src.mtime else push.time, inode, 1)
  }

  function RowOf(f: File): Option<Record> { Some(Record(f.mtime, f.inode)) }

  /** What a run leaves, by the two entries it decided on: at most one file is replaced, moved aside or removed; a copy
      is kept of what was moved aside, unless it is local, equal to what arrived, and can be removed; and the row is
      that of the local file if that is at rest, was pushed, arrived, or could not be removed. */
  lemma RunExactly(s: Spot, luck: Luck, copies: bool)
    ensures var (l, r) := Verdict(s, luck, copies);
            var o := Run(s, luck, copies);
            var toLocal, toRemote := Pushes(r) && luck.fromRemote != Lost, Pushes(l) && luck.fromLocal != Lost;
            && (Pushes(l) || Is(l, REMOVE) || Is(l, NONE) ==> s.l.Some?) && (Pushes(r) || Is(r, REMOVE) ==> s.r.Some?)
            && o.spot.l == (if toLocal then Some(Arrived(s.r.value, luck.fromRemote, luck.newLocal))
                            else if (Is(l, REMOVE) && luck.removes) || (Is(r, CONFLICT) && luck.backs) then None
                            else s.l)
            && o.spot.r == (if toRemote then Some(Arrived(s.l.value, luck.fromLocal, luck.newRemote))
                            else if (Is(r, REMOVE) && luck.removes) || (Is(l, CONFLICT) && luck.backs) then None
                            else s.r)
            && o.remoteCopy == (if Is(l, CONFLICT) && luck.backs then s.r else None)
            && o.localCopy == (if Is(r, CONFLICT) && luck.backs
                                  && !(toLocal && s.l.Some? && s.l.value.content == s.r.value.content && luck.removes)
                               then s.l else None)
            && o.spot.journal
            && o.spot.row == (if toLocal && Works(luck.fromRemote) then RowOf(o.spot.l.value)
                              else if Is(l, NONE) || (Pushes(l) && Works(luck.fromLocal))
                                      || (Is(l, REMOVE) && !luck.removes) then RowOf(s.l.value)
                              else None)
  {
    DecisionTable(View(s, luck), luck.renamed, copies);
    ConflictExactly(View(s, luck), luck.renamed, copies);
    AtMostOneActs(View(s, luck), luck.renamed, copies);
    EntriesShow(s, luck, copies);
    var (l, r) := Verdict(s, luck, copies);
    CarryExactly(s, luck, l, r);
  }

  lemma CarryExactly(s: Spot, luck: Luck, l: Option<Entry>, r: Option<Entry>)
    requires !(Acts(l) && Acts(r)) && (l.Some? ==> s.l.Some? && l == Entered(s.l, Some(l.value.instruction)))
    requires r.Some? ==> s.r.Some? && r == Entered(s.r, Some(r.value.instruction))
    requires !Is(l, UPDATED) && !Is(r, UPDATED)
    ensures var o := Carry(s, luck, l, r);
            var toLocal, toRemote := Pushes(r) && luck.fromRemote != Lost, Pushes(l) && luck.fromLocal != Lost;
            && o.spot.l == (if toLocal then Some(Arrived(s.r.value, luck.fromRemote, luck.newLocal))
                            else if (Is(l, REMOVE) && luck.removes) || (Is(r, CONFLICT) && luck.backs) then None
                            else s.l)
            && o.spot.r == (if toRemote then Some(Arrived(s.l.value, luck.fromLocal, luck.newRemote))
                            else if (Is(r, REMOVE) && luck.removes) || (Is(l, CONFLICT) && luck.backs) then None
                            else s.r)
            && o.remoteCopy == (if Is(l, CONFLICT) && luck.backs then s.r else None)
            && o.localCopy == (if Is(r, CONFLICT) && luck.backs
                                  && !(toLocal && s.l.Some? && s.l.value.content == s.r.value.content && luck.removes)
                               then s.l else None)
            && o.spot.journal
            && o.spot.row == (if toLocal && Works(luck.fromRemote) then RowOf(o.spot.l.value)
                              else if Is(l, NONE) || (Pushes(l) && Works(luck.fromLocal))
                                      || (Is(l, REMOVE) && !luck.removes) then RowOf(s.l.value)
                              else None)
  {
  }

  /** A file vanishes from its path in a run exactly when the run removes it, or moves it aside for a winner that does
      not arrive. */
  lemma VanishesExactly(s: Spot, luck: Luck, copies: bool)
    ensures var s' := Run(s, luck, copies).spot;
            && (s.l.Some? && s'.l.None? <==> Removes(s, luck, LOCAL) || Displaces(s, luck, copies, REMOTE))
            && (s.r.Some? && s'.r.None? <==> Removes(s, luck, REMOTE) || Displaces(s, luck, copies, LOCAL))
  {
    if BothSeen(s, luck) { VanishesSeen(s, luck, copies); } else { VanishesAlone(s, luck, copies); }
  }

  lemma VanishesSeen(s: Spot, luck: Luck, copies: bool)
    requires BothSeen(s, luck)
    ensures var s' := Run(s, luck, copies).spot;
            && (s'.l.None? <==> Displaces(s, luck, copies, REMOTE))
            && (s'.r.None? <==> Displaces(s, luck, copies, LOCAL))
  {
    if Known(s) { VanishesKnown(s, luck, copies); } else { VanishesUnknown(s, luck, copies); }
  }

  lemma VanishesKnown(s: Spot, luck: Luck, copies: bool)
    requires BothSeen(s, luck) && Known(s)
    ensures var s' := Run(s, luck, copies).spot;
            && (s'.l.None? <==> Displaces(s, luck, copies, REMOTE))
            && (s'.r.None? <==> Displaces(s, luck, copies, LOCAL))
  {
  }

  lemma VanishesUnknown(s: Spot, luck: Luck, copies: bool)
    requires BothSeen(s, luck) && !Known(s)
    ensures var s' := Run(s, luck, copies).spot;
            && (s'.l.None? <==> Displaces(s, luck, copies, REMOTE))
            && (s'.r.None? <==> Displaces(s, luck, copies, LOCAL))
  {
  }

  lemma VanishesAlone(s: Spot, luck: Luck, copies: bool)
    requires !BothSeen(s, luck)
    ensures var s' := Run(s, luck, copies).spot;
            && (s.l.Some? && s'.l.None? <==> Removes(s, luck, LOCAL))
            && (s.r.Some? && s'.r.None? <==> Removes(s, luck, REMOTE))
    ensures !Displaces(s, luck, copies, LOCAL) && !Displaces(s, luck, copies, REMOTE)
  {
    ConflictSides(View(s, luck), luck.renamed, copies);
  }

  /** The file is there, and the listing of its replica misses it. */
  predicate Missed(s: Spot, luck: Luck, replica: Replica) {
    if replica == LOCAL then s.l.Some? && !luck.seesLocal else s.r.Some? && !luck.seesRemote
  }

  /** A run sets out to remove a file that the other replica still has exactly when the listing missed the other one,
      and the file has a single link and is as the journal remembers it. */
  lemma MissedIsRemovedExactly(s: Spot, luck: Luck, copies: bool)
    ensures var (l, r) := Verdict(s, luck, copies);
            && (Is(l, REMOVE) && s.r.Some? <==> luck.seesLocal && Remembered(s.l, s) && Missed(s, luck, REMOTE))
            && (Is(r, REMOVE) && s.l.Some? <==> luck.seesRemote && Remembered(s.r, s) && Missed(s, luck, LOCAL))
  {
    RemovalExactly(View(s, luck), luck.renamed, copies);
  }

  /** A displaced file is in its conflict copy. */
  lemma DisplacedIsKept(s: Spot, luck: Luck, copies: bool)
    ensures Displaces(s, luck, copies, REMOTE) ==> Run(s, luck, copies).localCopy == s.l
    ensures Displaces(s, luck, copies, LOCAL) ==> Run(s, luck, copies).remoteCopy == s.r
  {
    ConflictSides(View(s, luck), luck.renamed, copies);
  }

  /** A conflict copy is made on one replica, of the file that was there, and only where both have one. */
  lemma CopiesOneSided(s: Spot, luck: Luck, copies: bool)
    ensures var o := Run(s, luck, copies);
            && (o.localCopy.Some? ==> o.localCopy == s.l && o.remoteCopy.None? && s.r.Some? && !InSync(s))
            && (o.remoteCopy.Some? ==> o.remoteCopy == s.r && o.localCopy.None? && s.l.Some? && !InSync(s))
  {
    ConflictSides(View(s, luck), luck.renamed, copies);
    if BothSeen(s, luck) { } else { }
  }

  /** Conflict copies are made only on request. */
  lemma NoCopies(s: Spot, luck: Luck)
    ensures Run(s, luck, false).localCopy == None && Run(s, luck, false).remoteCopy == None
  {
    ConflictSides(View(s, luck), luck.renamed, false);
  }

  /** Right after a run, whatever its luck, a journalled path is on the local replica exactly unless the run displaced
      it, and on the remote one unless it was gone from there and the removal of the local file failed. */
  lemma RowsMeanBoth(s: Spot, luck: Luck, copies: bool)
    ensures var s' := Run(s, luck, copies).spot;
            && (s'.row.Some? && s'.l.None? <==> Displaces(s, luck, copies, REMOTE))
            && (s'.row.Some? && s'.r.None? <==> Is(Verdict(s, luck, copies).0, REMOVE) && !luck.removes && s.r.None?)
  {
    if BothSeen(s, luck) {
      if Known(s) { RowsMeanKnown(s, luck, copies); } else { RowsMeanUnknown(s, luck, copies); }
    } else {
      RowsMeanAlone(s, luck, copies);
    }
  }

  lemma RowsMeanKnown(s: Spot, luck: Luck, copies: bool)
    requires BothSeen(s, luck) && Known(s)
    ensures var s' := Run(s, luck, copies).spot;
            && (s'.row.Some? && s'.l.None? <==> Displaces(s, luck, copies, REMOTE))
            && !(s'.row.Some? && s'.r.None?)
  {
  }

  lemma RowsMeanUnknown(s: Spot, luck: Luck, copies: bool)
    requires BothSeen(s, luck) && !Known(s)
    ensures var s' := Run(s, luck, copies).spot;
            && (s'.row.Some? && s'.l.None? <==> Displaces(s, luck, copies, REMOTE))
            && !(s'.row.Some? && s'.r.None?)
  {
  }

  lemma RowsMeanAlone(s: Spot, luck: Luck, copies: bool)
    requires !BothSeen(s, luck)
    ensures var s' := Run(s, luck, copies).spot;
            && !(s'.row.Some? && s'.l.None?) && !Displaces(s, luck, copies, REMOTE)
            && (s'.row.Some? && s'.r.None? <==> Is(Verdict(s, luck, copies).0, REMOVE) && !luck.removes && s.r.None?)
  {
    ConflictSides(View(s, luck), luck.renamed, copies);
    if luck.seesLocal && s.l.Some? { } else { }
  }

  /** The row describes the local file, unless a push from the remote replica failed after it had replaced the file. */
  lemma RowsDescribe(s: Spot, luck: Luck, copies: bool)
    ensures var s' := Run(s, luck, copies).spot;
            s'.row.Some? && s'.l.Some? && !luck.fromRemote.Placed? ==>
              s'.row.value == Record(s'.l.value.mtime, s'.l.value.inode)
  {
    if BothSeen(s, luck) { RowsDescribeSeen(s, luck, copies); } else { RowsDescribeAlone(s, luck, copies); }
  }

  lemma RowsDescribeSeen(s: Spot, luck: Luck, copies: bool)
    requires BothSeen(s, luck)
    ensures var s' := Run(s, luck, copies).spot;
            s'.row.Some? && s'.l.Some? && !luck.fromRemote.Placed? ==>
              s'.row.value == Record(s'.l.value.mtime, s'.l.value.inode)
  {
  }

  lemma RowsDescribeAlone(s: Spot, luck: Luck, copies: bool)
    requires !BothSeen(s, luck)
    ensures var s' := Run(s, luck, copies).spot;
            s'.row.Some? && s'.l.Some? && !luck.fromRemote.Placed? ==>
              s'.row.value == Record(s'.l.value.mtime, s'.l.value.inode)
  {
  }

  /** Both files were edited since the last run, to the same time. */
  predicate Tie(s: Spot) {
    s.l.Some? && s.r.Some? && Known(s) && Changed(s.l, s) && Changed(s.r, s) && s.l.value.mtime == s.r.value.mtime
  }

  /** The run displaced the local file in a tie: conflict copies on, both files edited to the same time, the local one
      moved aside, and the push of the remote one failed. */
  predicate TieDisplaced(s: Spot, luck: Luck, copies: bool) {
    Complete(luck) && copies && luck.backs && luck.fromRemote == Lost && Tie(s) && !Linked(s.l) && !Linked(s.r)
  }

  /** If nobody touches the files in between, the next run sets out to remove a remote file exactly when the run before
      displaced its rival in a tie, or the next listing misses the local file and the remote one is as journalled. A
      local file it sets out to remove exactly when the run before tried to, for it had no rival, or the next listing
      misses the remote file and the local one is as journalled. */
  lemma NextRunRemovesExactly(s: Spot, luck: Luck, copies: bool, luck': Luck, copies': bool)
    ensures var s' := Run(s, luck, copies).spot;
            var (l', r') := Verdict(s', luck', copies');
            && (Is(r', REMOVE) <==>
                  luck'.seesRemote
                  && (TieDisplaced(s, luck, copies) || (Missed(s', luck', LOCAL) && Remembered(s'.r, s'))))
            && (Is(l', REMOVE) <==>
                  luck'.seesLocal
                  && ((Is(Verdict(s, luck, copies).0, REMOVE) && !luck.removes && s.r.None?)
                      || (Missed(s', luck', REMOTE) && Remembered(s'.l, s'))))
  {
    var s' := Run(s, luck, copies).spot;
    RemovalExactly(View(s', luck'), luck'.renamed, copies');
    RowsMeanBoth(s, luck, copies);
    DisplacedRow(s, luck, copies);
    FailedRemovalRow(s, luck, copies);
  }

  /** A displaced file leaves its row behind, and the winner where it was. */
  lemma DisplacedRow(s: Spot, luck: Luck, copies: bool)
    ensures var s' := Run(s, luck, copies).spot;
            Displaces(s, luck, copies, REMOTE) ==>
              s'.l.None? && (Remembered(s'.r, s') <==> TieDisplaced(s, luck, copies))
    ensures TieDisplaced(s, luck, copies) ==> Displaces(s, luck, copies, REMOTE)
  {
    ConflictSides(View(s, luck), luck.renamed, copies);
    if BothSeen(s, luck) {
      if Known(s) { } else { }
    }
  }

  /** A file whose removal failed keeps its row. */
  lemma FailedRemovalRow(s: Spot, luck: Luck, copies: bool)
    ensures var s' := Run(s, luck, copies).spot;
            Is(Verdict(s, luck, copies).0, REMOVE) && !luck.removes ==> Remembered(s'.l, s')
  {
    RemovalExactly(View(s, luck), luck.renamed, copies);
  }

  // ---------- failed transfers ----------

  /** A tie between different contents: whichever file wins, an edit goes. */
  predicate Torn(s: Spot) { Tie(s) && s.l.value.content != s.r.value.content }

  /** The run ends a tie: a push lands, or moves the other file aside. */
  predicate Resolves(s: Spot, luck: Luck, copies: bool) {
    if luck.seesRemote then luck.fromRemote != Lost || (luck.seesLocal && copies && luck.backs)
    else luck.seesLocal && luck.fromLocal != Lost
  }

  /** A file that was put in place with a time of its own is not older than the row that stays or is written: not older
      than the local file whose row stays; and on the local replica, where the new row takes this time, not newer than
      the file it came from. */
  predicate Timely(s: Spot, luck: Luck, copies: bool) {
    var (l, r) := Verdict(s, luck, copies);
    && (Pushes(l) && luck.fromLocal.Undated? && s.l.Some? ==> luck.fromLocal.time >= s.l.value.mtime)
    && (Pushes(r) && luck.fromRemote.Undated? && s.r.Some? ==> luck.fromRemote.time <= s.r.value.mtime)
    && (Pushes(r) && luck.fromRemote.Placed? && s.l.Some? && luck.seesLocal ==>
          luck.fromRemote.time >= s.l.value.mtime)
  }

  predicate Ready(s: Spot, renamed: bool) { Sound(s, renamed) && !Torn(s) }

  /** After a run, whatever its luck, a sound path is ready for a run that converges exactly if the run was timely, it
      ended the tie if there was one, and no file without a row looks renamed beside its rival. */
  lemma SoundExactly(s: Spot, luck: Luck, copies: bool, renamed': bool)
    requires Sound(s, luck.renamed)
    ensures var s' := Run(s, luck, copies).spot;
            Ready(s', renamed') <==>
              && Timely(s, luck, copies) && (Torn(s) ==> Resolves(s, luck, copies))
              && (s'.l.Some? && s'.r.Some? && !Known(s') ==> !renamed')
  {
    if BothSeen(s, luck) {
      if Known(s) { SoundKnown(s, luck, copies, renamed'); } else { SoundUnknown(s, luck, copies, renamed'); }
    } else {
      SoundAlone(s, luck, copies, renamed');
    }
  }

  lemma SoundKnown(s: Spot, luck: Luck, copies: bool, renamed': bool)
    requires Sound(s, luck.renamed) && BothSeen(s, luck) && Known(s)
    ensures var s' := Run(s, luck, copies).spot;
            Ready(s', renamed') <==>
              && Timely(s, luck, copies) && (Torn(s) ==> Resolves(s, luck, copies))
              && (s'.l.Some? && s'.r.Some? && !Known(s') ==> !renamed')
  {
    if Changed(s.l, s) { } else { }
  }

  lemma SoundUnknown(s: Spot, luck: Luck, copies: bool, renamed': bool)
    requires Sound(s, luck.renamed) && BothSeen(s, luck) && !Known(s)
    ensures var s' := Run(s, luck, copies).spot;
            Ready(s', renamed') <==>
              Timely(s, luck, copies) && (s'.l.Some? && s'.r.Some? && !Known(s') ==> !renamed')
  {
    if copies { SoundCopying(s, luck, copies, renamed'); } else { SoundPlain(s, luck, copies, renamed'); }
  }

  lemma SoundCopying(s: Spot, luck: Luck, copies: bool, renamed': bool)
    requires Sound(s, luck.renamed) && BothSeen(s, luck) && !Known(s) && copies
    ensures var s' := Run(s, luck, copies).spot;
            Ready(s', renamed') <==>
              Timely(s, luck, copies) && (s'.l.Some? && s'.r.Some? && !Known(s') ==> !renamed')
  {
  }

  lemma SoundPlain(s: Spot, luck: Luck, copies: bool, renamed': bool)
    requires Sound(s, luck.renamed) && BothSeen(s, luck) && !Known(s) && !copies
    ensures var s' := Run(s, luck, copies).spot;
            Ready(s', renamed') <==>
              Timely(s, luck, copies) && (s'.l.Some? && s'.r.Some? && !Known(s') ==> !renamed')
  {
  }

  lemma SoundAlone(s: Spot, luck: Luck, copies: bool, renamed': bool)
    requires Sound(s, luck.renamed) && !BothSeen(s, luck)
    ensures var s' := Run(s, luck, copies).spot;
            Ready(s', renamed') <==>
              && Timely(s, luck, copies) && (Torn(s) ==> Resolves(s, luck, copies))
              && (s'.l.Some? && s'.r.Some? && !Known(s') ==> !renamed')
  {
    if luck.seesLocal && s.l.Some? {
      SoundLocalOnly(s, luck, copies, renamed');
    } else if luck.seesRemote && s.r.Some? {
      if s.l.Some? { SoundLocalMissed(s, luck, copies, renamed'); } else { SoundRemoteOnly(s, luck, copies, renamed'); }
    } else {
      SoundUnseen(s, luck, copies, renamed');
    }
  }

  lemma SoundLocalOnly(s: Spot, luck: Luck, copies: bool, renamed': bool)
    requires Sound(s, luck.renamed) && !BothSeen(s, luck) && luck.seesLocal && s.l.Some?
    ensures var s' := Run(s, luck, copies).spot;
            Ready(s', renamed') <==>
              && Timely(s, luck, copies) && (Torn(s) ==> Resolves(s, luck, copies))
              && (s'.l.Some? && s'.r.Some? && !Known(s') ==> !renamed')
  {
  }

  lemma SoundLocalMissed(s: Spot, luck: Luck, copies: bool, renamed': bool)
    requires Sound(s, luck.renamed) && !luck.seesLocal && luck.seesRemote && s.l.Some? && s.r.Some?
    ensures var s' := Run(s, luck, copies).spot;
            Ready(s', renamed') <==>
              && Timely(s, luck, copies) && (Torn(s) ==> Resolves(s, luck, copies))
              && (s'.l.Some? && s'.r.Some? && !Known(s') ==> !renamed')
  {
    if luck.fromRemote == Lost { } else { }
  }

  lemma SoundRemoteOnly(s: Spot, luck: Luck, copies: bool, renamed': bool)
    requires Sound(s, luck.renamed) && luck.seesRemote && s.l.None? && s.r.Some?
    ensures var s' := Run(s, luck, copies).spot;
            Ready(s', renamed') <==>
              && Timely(s, luck, copies) && (Torn(s) ==> Resolves(s, luck, copies))
              && (s'.l.Some? && s'.r.Some? && !Known(s') ==> !renamed')
  {
  }

  lemma SoundUnseen(s: Spot, luck: Luck, copies: bool, renamed': bool)
    requires Sound(s, luck.renamed) && !(luck.seesLocal && s.l.Some?) && !(luck.seesRemote && s.r.Some?)
    ensures var s' := Run(s, luck, copies).spot;
            Ready(s', renamed') <==>
              && Timely(s, luck, copies) && (Torn(s) ==> Resolves(s, luck, copies))
              && (s'.l.Some? && s'.r.Some? && !Known(s') ==> !renamed')
  {
  }

  /** The inode of a local file after a run is the one it had, or the one the run gave it; a file that was moved aside
      does not keep it at the path as well; and the row has one of these two. */
  lemma InodesAfter(s: Spot, luck: Luck, copies: bool)
    ensures var o := Run(s, luck, copies);
            && (o.spot.l.Some? ==>
                  o.spot.l.value.inode == luck.newLocal || (s.l.Some? && o.spot.l.value.inode == s.l.value.inode))
            && (o.spot.row.Some? ==>
                  o.spot.row.value.inode == luck.newLocal || (s.l.Some? && o.spot.row.value.inode == s.l.value.inode))
            && (o.localCopy.Some? ==> o.localCopy == s.l && (o.spot.l.None? || o.spot.l.value.inode == luck.newLocal))
  {
    ConflictSides(View(s, luck), luck.renamed, copies);
    if BothSeen(s, luck) { InodesAfterSeen(s, luck, copies); } else { }
  }

  lemma InodesAfterSeen(s: Spot, luck: Luck, copies: bool)
    requires BothSeen(s, luck)
    ensures var o := Run(s, luck, copies);
            && (o.spot.l.Some? ==> o.spot.l.value.inode in {luck.newLocal, s.l.value.inode})
            && (o.spot.row.Some? ==> o.spot.row.value.inode in {luck.newLocal, s.l.value.inode})
            && (o.localCopy.Some? ==> o.localCopy == s.l && (o.spot.l.None? || o.spot.l.value.inode == luck.newLocal))
  {
    if Known(s) { } else { }
  }

  /** When a push from the local replica fails before the rename, the next run, if it sees both files, pushes again
      exactly if the other replica has no file now, or a linked or older one, beside which nothing looks renamed. */
  lemma LocalPushRetried(s: Spot, luck: Luck, copies: bool, renamed': bool, copies': bool)
    requires Pushes(Verdict(s, luck, copies).0) && luck.fromLocal == Lost
    ensures var s' := Run(s, luck, copies).spot;
            s.l.Some?
            && (Pushes(Decided(s', renamed', copies').0) <==>
                  s'.r.None? || (!renamed' && (Linked(s.r) || s.l.value.mtime > s.r.value.mtime)))
  {
    LocalLost(s, luck, copies);
    NextLocal(Run(s, luck, copies).spot, renamed', copies');
  }

  /** What a failed push from the local replica leaves. */
  lemma LocalLost(s: Spot, luck: Luck, copies: bool)
    requires Pushes(Verdict(s, luck, copies).0) && luck.fromLocal == Lost
    ensures var s' := Run(s, luck, copies).spot;
            && s.l.Some? && !Linked(s.l) && s'.l == s.l && s'.journal && s'.row.None?
            && (s'.r == s.r || (s'.r.None? && s.l.value.mtime > s.r.value.mtime))
  {
    AtMostOneActs(View(s, luck), luck.renamed, copies);
    ConflictSides(View(s, luck), luck.renamed, copies);
    EntriesShow(s, luck, copies);
    var (l, r) := Verdict(s, luck, copies);
    CarryLocalLost(s, luck, l, r);
  }

  /** The decided entries show files, with their times; and one that pushes or is at rest belongs to no linked file. */
  lemma EntriesShow(s: Spot, luck: Luck, copies: bool)
    ensures var (l, r) := Verdict(s, luck, copies);
            && (l.Some? ==> s.l.Some? && l.value.mtime == s.l.value.mtime && !Is(l, UPDATED))
            && (r.Some? ==> s.r.Some? && r.value.mtime == s.r.value.mtime && !Is(r, UPDATED))
            && (Pushes(l) || Is(l, NONE) ==> !Linked(s.l)) && (Pushes(r) || Is(r, NONE) ==> !Linked(s.r))
  {
  }

  lemma CarryLocalLost(s: Spot, luck: Luck, l: Option<Entry>, r: Option<Entry>)
    requires Pushes(l) && !Acts(r) && !Is(r, UPDATED) && luck.fromLocal == Lost && s.l.Some?
    ensures var s' := Carry(s, luck, l, r).spot;
            && s'.l == s.l && s'.journal && s'.row.None?
            && (s'.r == s.r || (s'.r.None? && Is(l, CONFLICT)))
  {
  }

  lemma CarryRemoteLost(s: Spot, luck: Luck, l: Option<Entry>, r: Option<Entry>)
    requires !Acts(l) && !Is(l, UPDATED) && Pushes(r) && luck.fromRemote == Lost && s.r.Some?
    ensures var s' := Carry(s, luck, l, r).spot;
            && s'.r == s.r && s'.journal && (s'.l == s.l || (s'.l.None? && Is(r, CONFLICT)))
            && s'.row == if Is(l, NONE) then Some(Record(l.value.mtime, l.value.inode)) else None
  {
  }

  lemma NextLocal(s: Spot, renamed: bool, copies: bool)
    requires s.journal && s.row.None? && s.l.Some? && !Linked(s.l)
    ensures Pushes(Decided(s, renamed, copies).0) <==>
              s.r.None? || (!renamed && (Linked(s.r) || s.l.value.mtime > s.r.value.mtime))
  {
  }

  /** And a push from the remote replica: exactly if the local replica had no file, or a linked or older one, or one
      without a row that looks renamed. So a push that broke a tie is forgotten, and one that a renamed or missed newer
      file had let through. */
  lemma RemotePushRetried(s: Spot, luck: Luck, copies: bool, renamed': bool, copies': bool)
    requires Pushes(Verdict(s, luck, copies).1) && luck.fromRemote == Lost
    ensures var s' := Run(s, luck, copies).spot;
            s.r.Some?
            && (Pushes(Decided(s', renamed', copies').1) <==>
                  || s.l.None? || Linked(s.l) || s.r.value.mtime > s.l.value.mtime
                  || (s'.row.None? && renamed'))
  {
    RemoteLost(s, luck, copies);
    NextRemote(Run(s, luck, copies).spot, renamed', copies');
  }

  /** What a failed push from the remote replica leaves. */
  lemma RemoteLost(s: Spot, luck: Luck, copies: bool)
    requires Pushes(Verdict(s, luck, copies).1) && luck.fromRemote == Lost
    ensures var s' := Run(s, luck, copies).spot;
            && s.r.Some? && !Linked(s.r) && s'.r == s.r && s'.journal
            && (match s'.row
                case None => s'.l == s.l
                case Some(row) =>
                  s.l.Some? && !Linked(s.l) && row.mtime == s.l.value.mtime && (s'.l == s.l || s'.l.None?))
  {
    AtMostOneActs(View(s, luck), luck.renamed, copies);
    ConflictSides(View(s, luck), luck.renamed, copies);
    EntriesShow(s, luck, copies);
    var (l, r) := Verdict(s, luck, copies);
    CarryRemoteLost(s, luck, l, r);
  }

  lemma NextRemote(s: Spot, renamed: bool, copies: bool)
    requires s.journal && s.r.Some? && !Linked(s.r)
    requires s.row.Some? && s.l.Some? ==> !Linked(s.l) && s.l.value.mtime == s.row.value.mtime
    ensures Pushes(Decided(s, renamed, copies).1) <==>
              match s.row
              case None => s.l.None? || Linked(s.l) || renamed || s.r.value.mtime > s.l.value.mtime
              case Some(row) => s.r.value.mtime > row.mtime
  {
  }

  /** Without a backup the files stay as they were. */
  lemma FailedPushChangesNothing(s: Spot, luck: Luck, copies: bool)
    requires !(copies && luck.backs)
    ensures var (l, r) := Verdict(s, luck, copies);
            var s' := Run(s, luck, copies).spot;
            (Pushes(l) && luck.fromLocal == Lost) || (Pushes(r) && luck.fromRemote == Lost) ==>
              s'.l == s.l && s'.r == s.r
  {
    AtMostOneActs(View(s, luck), luck.renamed, copies);
    ConflictSides(View(s, luck), luck.renamed, copies);
    if BothSeen(s, luck) { } else { }
  }

  /** The first file is linked, or older than the second. */
  predicate Yields(f: Option<File>, g: File) { Linked(f) || (f.Some? && g.mtime > f.value.mtime) }

  /** A push that fails before the rename is scheduled again by a next run that sees both files exactly if the rival is
      gone, linked or older; beside it a renamed file comes first when it is the remote one that is to be pushed, and
      last when it is the local one. Without a backup the files stay as they were. */
  lemma FailedPushIsRetried(s: Spot, luck: Luck, copies: bool, renamed': bool, copies': bool)
    ensures var (l, r) := Verdict(s, luck, copies);
            var s' := Run(s, luck, copies).spot;
            var (l', r') := Decided(s', renamed', copies');
            && (Pushes(l) && luck.fromLocal == Lost ==>
                  s.l.Some? && (Pushes(l') <==> s'.r.None? || (!renamed' && Yields(s.r, s.l.value))))
            && (Pushes(r) && luck.fromRemote == Lost ==>
                  s.r.Some? && (Pushes(r') <==> s.l.None? || Yields(s.l, s.r.value) || (s'.row.None? && renamed')))
            && ((Pushes(l) && luck.fromLocal == Lost) || (Pushes(r) && luck.fromRemote == Lost) ==>
                  (copies && luck.backs) || (s'.l == s.l && s'.r == s.r))
  {
    var (l, r) := Verdict(s, luck, copies);
    if Pushes(l) && luck.fromLocal == Lost { LocalPushRetried(s, luck, copies, renamed', copies'); }
    if Pushes(r) && luck.fromRemote == Lost { RemotePushRetried(s, luck, copies, renamed', copies'); }
    if !(copies && luck.backs) { FailedPushChangesNothing(s, luck, copies); }
  }

  // ---------- contents ----------

  predicate Holds(f: Option<File>, c: Content) { f.Some? && f.value.content == c }

  /** The content is still at the path on some replica, or in a conflict copy beside it. */
  predicate Survives(o: Outcome, c: Content) {
    Holds(o.spot.l, c) || Holds(o.spot.r, c) || Holds(o.localCopy, c) || Holds(o.remoteCopy, c)
  }

  /** Of two fresh files this one is pushed over the other, and no backup is made: it has a single link, and the listing
      missed the other file; or one of the two stands outside the comparison, being linked or renamed; or it wins the
      comparison while conflict copies are off or the backup fails. */
  predicate Prevails(s: Spot, luck: Luck, copies: bool, winner: Replica)
    requires s.l.Some? && s.r.Some?
  {
    if winner == LOCAL then
      && luck.seesLocal && !Linked(s.l)
      && (|| !luck.seesRemote
          || (Linked(s.r) && !Known(s) && !Renames(s, luck.renamed))
          || (!Linked(s.r) && !Renames(s, luck.renamed) && s.l.value.mtime > s.r.value.mtime
              && !(copies && luck.backs)))
    else
      && luck.seesRemote && !Linked(s.r)
      && (|| !luck.seesLocal
          || (!Known(s) && (Linked(s.l) || Renames(s, luck.renamed)))
          || (!Linked(s.l) && !Renames(s, luck.renamed) && (s.r.value.mtime > s.l.value.mtime || Tie(s))
              && !(copies && luck.backs)))
  }

  /** It lands there, with a different content. */
  predicate Overwrites(s: Spot, luck: Luck, copies: bool, winner: Replica) {
    && Changed(s.l, s) && Changed(s.r, s) && s.l.value.content != s.r.value.content
    && (if winner == LOCAL then luck.fromLocal else luck.fromRemote) != Lost
    && Prevails(s, luck, copies, winner)
  }

  /** A run, whatever its luck, loses a content that somebody wrote since the run before exactly when the rival file
      overwrites it. */
  lemma LostExactly(s: Spot, luck: Luck, copies: bool)
    ensures Changed(s.l, s) ==>
              (!Survives(Run(s, luck, copies), s.l.value.content) <==> Overwrites(s, luck, copies, REMOTE))
    ensures Changed(s.r, s) ==>
              (!Survives(Run(s, luck, copies), s.r.value.content) <==> Overwrites(s, luck, copies, LOCAL))
  {
    LostByPush(s, luck, copies);
    if Changed(s.l, s) && Changed(s.r, s) { PrevailsExactly(s, luck, copies); }
  }

  /** The side pushes, and makes no backup of what it pushes over. */
  predicate PushesOver(e: Option<Entry>, luck: Luck) { Pushes(e) && !(Is(e, CONFLICT) && luck.backs) }

  lemma PrevailsExactly(s: Spot, luck: Luck, copies: bool)
    requires Changed(s.l, s) && Changed(s.r, s)
    ensures var (l, r) := Verdict(s, luck, copies);
            && (PushesOver(l, luck) <==> Prevails(s, luck, copies, LOCAL))
            && (PushesOver(r, luck) <==> Prevails(s, luck, copies, REMOTE))
  {
  }

  /** Fresh content is lost by a push that lands on it, and in no other way. */
  lemma LostByPush(s: Spot, luck: Luck, copies: bool)
    ensures Changed(s.l, s) ==>
              (!Survives(Run(s, luck, copies), s.l.value.content) <==>
               && Changed(s.r, s) && PushesOver(Verdict(s, luck, copies).1, luck) && luck.fromRemote != Lost
               && s.l.value.content != s.r.value.content)
    ensures Changed(s.r, s) ==>
              (!Survives(Run(s, luck, copies), s.r.value.content) <==>
               && Changed(s.l, s) && PushesOver(Verdict(s, luck, copies).0, luck) && luck.fromLocal != Lost
               && s.l.value.content != s.r.value.content)
  {
    AtMostOneActs(View(s, luck), luck.renamed, copies);
    ConflictSides(View(s, luck), luck.renamed, copies);
    RemovalExactly(View(s, luck), luck.renamed, copies);
    OnlyFreshPushes(s, luck, copies);
    var (l, r) := Verdict(s, luck, copies);
    CarryLoses(s, luck, l, r);
  }

  lemma CarryLoses(s: Spot, luck: Luck, l: Option<Entry>, r: Option<Entry>)
    requires !(Acts(l) && Acts(r)) && (Acts(l) ==> s.l.Some?) && (Acts(r) ==> s.r.Some?)
    requires (Is(l, REMOVE) ==> !Changed(s.l, s)) && (Is(r, REMOVE) ==> !Changed(s.r, s))
    ensures Changed(s.l, s) ==>
              (!Survives(Carry(s, luck, l, r), s.l.value.content) <==>
               && s.r.Some? && PushesOver(r, luck) && luck.fromRemote != Lost
               && s.l.value.content != s.r.value.content)
    ensures Changed(s.r, s) ==>
              (!Survives(Carry(s, luck, l, r), s.r.value.content) <==>
               && s.l.Some? && PushesOver(l, luck) && luck.fromLocal != Lost
               && s.l.value.content != s.r.value.content)
  {
  }

  lemma OnlyFreshPushes(s: Spot, luck: Luck, copies: bool)
    ensures var (l, r) := Verdict(s, luck, copies);
            (Pushes(l) ==> Changed(s.l, s)) && (Pushes(r) ==> Changed(s.r, s))
  {
  }

  /** With conflict copies on, a run with complete listings whose backups work loses no fresh content of files with
      single links, none of them renamed, however its pushes end. */
  lemma NothingLost(s: Spot, luck: Luck)
    requires Complete(luck) && luck.backs && !Linked(s.l) && !Linked(s.r) && !Renames(s, luck.renamed)
    ensures Changed(s.l, s) ==> Survives(Run(s, luck, true), s.l.value.content)
    ensures Changed(s.r, s) ==> Survives(Run(s, luck, true), s.r.value.content)
  {
    LostExactly(s, luck, true);
  }

  /** A conflict leaves the winner at the path and the loser in the conflict copy on the loser's replica;
      only a local loser that equals the winner is dropped. */
  lemma ConflictOutcome(s: Spot, luck: Luck)
    requires Fortunate(luck)
    ensures var (l, r) := Decided(s, luck.renamed, true);
            var o := Run(s, luck, true);
            && (Is(l, CONFLICT) ==>
                  && s.l.Some? && s.r.Some? && o.spot.l == s.l && Agree(o.spot.r, s.l)
                  && o.remoteCopy == s.r && o.localCopy == None)
            && (Is(r, CONFLICT) ==>
                  && s.l.Some? && s.r.Some? && o.spot.r == s.r && Agree(o.spot.l, s.r) && o.remoteCopy == None
                  && o.localCopy == if s.l.value.content == s.r.value.content then None else s.l)
            && (!Is(l, CONFLICT) && !Is(r, CONFLICT) ==> o.localCopy == None && o.remoteCopy == None)
  {
    assert View(s, luck) == s;
    ConflictSides(s, luck.renamed, true);
    if s.l.Some? && s.r.Some? { } else { }
  }
}

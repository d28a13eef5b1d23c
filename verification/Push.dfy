/** The push of one file through a temporary file: _csync_push_file() of csync_propagate.c. */
module Pushes {
  import opened Options
  import opened SyncRules
  import opened TmpNames

  type Path = string

  datatype Errno = EEXIST | ENOENT | ENOTDIR | ENOMEM | ENOSPC | EDQUOT | EIO

  datatype Info = Info(content: Content, mode: nat, mtime: int)

  /** The destination replica as a crash would leave it. */
  datatype Disk = Disk(files: map<Path, Info>, dirs: set<Path>)

  const DEFAULT_MODE: nat := 420  // 0644
  const XFER_BUF_SIZE: nat := 16384

  function Lookup(d: Disk, p: Path): Option<Info> { if p in d.files then Some(d.files[p]) else None }

  // ---------- directories ----------

  function StripSlashes(p: Path): (r: Path)
    ensures r <= p
  {
    if p != "" && p[|p| - 1] == '/' then StripSlashes(p[..|p| - 1]) else p
  }

  function StripName(p: Path): (r: Path)
    ensures r <= p
    ensures p != "" && p[|p| - 1] != '/' ==> |r| < |p|
  {
    if p != "" && p[|p| - 1] != '/' then StripName(p[..|p| - 1]) else p
  }

  /** The directory above: empty at the top. */
  function Up(p: Path): (r: Path)
    ensures |r| < |p| || p == r == ""
  {
    StripSlashes(StripName(StripSlashes(p)))
  }

  function Dirname(p: Path): Path {
    var q := StripName(StripSlashes(p));
    if p == "" then "."
    else if StripSlashes(p) == "" then "/"
    else if q == "" then "."
    else if |q| == 1 then "/"
    else StripSlashes(q)
  }

  /** A directory and those above it. */
  function Chain(p: Path): set<Path>
    decreases |p|
  {
    {p} + if Up(p) == "" then {} else Chain(Up(p))
  }

  lemma ChainIsShort(p: Path)
    ensures forall d | d in Chain(p) :: |d| <= |p|
    decreases |p|
  {
    if Up(p) != "" { ChainIsShort(Up(p)); }
  }

  /** No directory is above itself. */
  lemma NotAbove(p: Path)
    requires |p| > 1
    ensures p !in Chain(Dirname(p))
  {
    ChainIsShort(Dirname(p));
    var s := StripSlashes(p);
    assert s != "" && s[|s| - 1] != '/' ==> |StripName(s)| < |s|;
    LastIsNoSlash(p);
  }

  lemma {:induction false} LastIsNoSlash(p: Path)
    ensures var s := StripSlashes(p); s != "" ==> s[|s| - 1] != '/'
  {
    if p != "" && p[|p| - 1] == '/' { LastIsNoSlash(p[..|p| - 1]); }
  }

  /** A temporary file lies in the directory of its destination. */
  lemma SameDirname(p: Path, suffix: string)
    requires p != "" && p[|p| - 1] != '/' && '/' !in suffix
    ensures Dirname(p + suffix) == Dirname(p)
    decreases |suffix|
  {
    if suffix != "" {
      var n := |suffix| - 1;
      assert (p + suffix)[|p + suffix| - 1] == suffix[n] && suffix[n] in suffix;
      assert (p + suffix)[..|p + suffix| - 1] == p + suffix[..n];
      SameDirname(p, suffix[..n]);
      assert p + suffix[..n] == p || (p + suffix[..n])[|p + suffix[..n]| - 1] == suffix[n - 1];
    } else {
      assert p + suffix == p;
    }
  }

  function Slashes(n: nat): (s: Path)
    ensures |s| == n && forall c | c in s :: c == '/'
  {
    seq(n, _ => '/')
  }

  lemma {:induction false} StripsSlashes(p: Path, n: nat)
    requires p == "" || p[|p| - 1] != '/'
    ensures StripSlashes(p + Slashes(n)) == p
  {
    if n > 0 {
      assert (p + Slashes(n))[..|p| + n - 1] == p + Slashes(n - 1);
      StripsSlashes(p, n - 1);
    } else {
      assert p + Slashes(0) == p;
    }
  }

  lemma {:induction false} StripsName(p: Path, name: string)
    requires (p == "" || p[|p| - 1] == '/') && '/' !in name
    ensures StripName(p + name) == p
  {
    if name != "" {
      var n := |name| - 1;
      assert name[n] in name && (p + name)[..|p| + n] == p + name[..n];
      StripsName(p, name[..n]);
    } else {
      assert p + name == p;
    }
  }

  /** What precedes the last name of a path, down to the slashes that are left out. Where that is two slashes or more
      and nothing else, the root is lost: the empty string is no directory. */
  lemma DirnameIs(d: Path, above: nat, name: string, below: nat)
    requires name != "" && '/' !in name && (d == "" || (d[|d| - 1] != '/' && above > 0))
    ensures var p := d + Slashes(above) + name + Slashes(below);
            && Up(p) == d
            && Dirname(p) == if d != "" then d else if above == 0 then "." else if above == 1 then "/" else ""
    ensures Dirname(Slashes(above)) == if above == 0 then "." else "/"
  {
    StripsSlashes("", above);
    assert "" + Slashes(above) == Slashes(above);
    var q := d + Slashes(above);
    assert (q + name)[|q + name| - 1] == name[|name| - 1] && name[|name| - 1] in name;
    StripsSlashes(q + name, below);
    assert above > 0 ==> q[|q| - 1] == '/';
    assert above == 0 ==> q == "";
    StripsName(q, name);
    StripsSlashes(d, above);
  }

  /** Every directory lies in a directory. */
  predicate Rooted(dirs: set<Path>) { forall p {:trigger Up(p)} | p in dirs :: Up(p) == "" || Up(p) in dirs }

  lemma {:induction false} RootedChain(dirs: set<Path>, p: Path)
    requires Rooted(dirs) && p in dirs
    ensures Chain(p) <= dirs
    decreases |p|
  {
    if Up(p) != "" { RootedChain(dirs, Up(p)); }
  }

  // ---------- file operations that may fail ----------

  /** What happens to one operation: it works, it fails without effect, or it does only part of its work. */
  datatype Luck = Fine | Fails(errno: Errno) | Short(n: nat)

  datatype Operation = OPEN | CREATE | READ | WRITE | CLOSE_SOURCE | CLOSE_TEMP | STAT | MOVE | CHMOD | UTIMES
  datatype Failure = Failure(operation: Operation, errno: Errno)

  /** A failure that ends the push. A missing directory is made, and what comes of closing or of setting the time does
      not matter unless the data may not be on the disk. */
  predicate Ends(f: Failure) {
    match f.operation
    case CREATE => f.errno != ENOENT
    case CLOSE_TEMP => f.errno in {ENOSPC, EDQUOT}
    case CLOSE_SOURCE | UTIMES => false
    case _ => true
  }

  /** A failure that ends the push, and the whole run with it. */
  predicate EndsAll(f: Failure) {
    match f.operation
    case READ | WRITE | CLOSE_SOURCE | UTIMES => false
    case CREATE => f.errno in {ENOMEM, EEXIST}
    case CLOSE_TEMP => f.errno in {ENOSPC, EDQUOT}
    case _ => f.errno == ENOMEM
  }

  /** What failed before did not end the push. */
  predicate Harmless(failures: seq<Failure>) { forall i | 0 <= i < |failures| :: !Ends(failures[i]) }

  /** Whether a push has ended, and how. */
  predicate Ended(failures: seq<Failure>, rc: int) {
    && failures != [] && Harmless(failures[..|failures| - 1])
    && Ends(failures[|failures| - 1]) && rc == if EndsAll(failures[|failures| - 1]) then -1 else 1
  }

  /** Why a file cannot be created under this name, if so. */
  function CreateError(d: Disk, p: Path): Option<Errno> {
    if !(Chain(Dirname(p)) !! d.files.Keys) then Some(ENOTDIR)
    else if Dirname(p) !in d.dirs then Some(ENOENT)
    else if p in d.files || p in d.dirs then Some(EEXIST)
    else None
  }

  /** Nothing but missing directories keeps a file from being created under this name. */
  predicate Free(d: Disk, p: Path) { p !in d.files && p !in d.dirs && Chain(Dirname(p)) !! d.files.Keys }

  class Vio {
    var disk: Disk
    var luck: seq<Luck>  // when it is used up, operations work
    const newMode: nat  // what the umask leaves of the default mode
    ghost var trail: seq<Disk>  // the disk after every step so far: what a crash may leave
    ghost var failures: seq<Failure>  // what has failed since the push began

    constructor (disk: Disk, luck: seq<Luck>, newMode: nat)
      ensures this.disk == disk && this.luck == luck && this.newMode == newMode && trail == [disk]
    {
      this.disk, this.luck, this.newMode, trail, failures := disk, luck, newMode, [disk], [];
    }

    /** The mode that a pushed file ends with: a default mode is never set, so that the umask has cut it. */
    function Mode(mode: nat): nat { if mode == DEFAULT_MODE then newMode else mode }

    /** One more step was taken, and left the disk as `d`. */
    twostate predicate Went(d: Disk) reads this {
      disk == d && trail == old(trail) + [d] && |luck| <= |old(luck)|
    }

    twostate predicate Noted(operation: Operation, new error: Option<Errno>) reads this {
      failures == if error == None then old(failures) else old(failures) + [Failure(operation, error.value)]
    }

    ghost method Note(operation: Operation, error: Option<Errno>)
      modifies this`failures
      ensures Noted(operation, error)
    {
      if error != None {
        failures := failures + [Failure(operation, error.value)];
      }
    }

    method Open(source: Option<Content>) returns (error: Option<Errno>)
      modifies this`luck, this`failures
      ensures |luck| <= |old(luck)| && Noted(OPEN, error) && (error == None ==> source.Some?)
      ensures old(luck) == [] ==> luck == [] && error == if source == None then Some(ENOENT) else None
    {
      var l := Draw();
      error := if l.Fails? then Some(l.errno) else if source == None then Some(ENOENT) else None;
      Note(OPEN, error);
    }

    method Draw() returns (l: Luck)
      modifies this`luck
      ensures if old(luck) == [] then l == Fine && luck == [] else l == old(luck)[0] && luck == old(luck)[1..]
    {
      l := Fine;
      if luck != [] {
        l, luck := luck[0], luck[1..];
      }
    }

    method Step(d: Disk)
      modifies this`disk, this`trail
      ensures disk == d && trail == old(trail) + [d]
    {
      disk := d;
      trail := trail + [d];
    }

    /** open(O_CREAT|O_EXCL) */
    method Create(p: Path) returns (error: Option<Errno>)
      modifies this
      ensures error == None ==>
                && CreateError(old(disk), p) == None
                && Went(old(disk).(files := old(disk).files[p := Info([], newMode, 0)]))
      ensures error != None ==> Went(old(disk))
      ensures old(luck) == [] ==> error == CreateError(old(disk), p)
      ensures (old(luck) != [] ==> |luck| < |old(luck)|) && Noted(CREATE, error)
    {
      var l := Draw();
      error := if l.Fails? then Some(l.errno) else CreateError(disk, p);
      Note(CREATE, error);
      Step(if error == None then disk.(files := disk.files[p := Info([], newMode, 0)]) else disk);
    }

    /** Creates a directory and those above it; a failure may leave some of them. */
    method Mkdirs(p: Path) returns (ok: bool)
      modifies this
      ensures disk.files == old(disk).files && old(disk).dirs <= disk.dirs <= old(disk).dirs + Chain(p)
      ensures Extended(trail, old(trail)) && |luck| <= |old(luck)| && failures == old(failures)
      ensures forall i | |old(trail)| <= i < |trail| ::
                && trail[i].files == old(disk).files && old(disk).dirs <= trail[i].dirs <= old(disk).dirs + Chain(p)
                && (Rooted(old(disk).dirs) ==> Rooted(trail[i].dirs))
      ensures Rooted(old(disk).dirs) ==> Rooted(disk.dirs)
      ensures |luck| == |old(luck)| && Chain(p) !! disk.files.Keys ==> ok && p in disk.dirs
      decreases |p|
    {
      var l := Draw();
      if l.Fails? || p in disk.files {
        return false;
      }
      var up := Up(p);
      if up != "" {
        if up in disk.files {
          return false;
        } else if up !in disk.dirs {
          ok := Mkdirs(up);
          if !ok {
            return false;
          }
        }
      }
      l := Draw();
      if l.Fails? {
        return l.errno == EEXIST;
      } else if up != "" && up !in disk.dirs {
        return false;
      }
      Step(disk.(dirs := disk.dirs + {p}));
      ok := true;
    }

    /** Reads on from `pos`: nothing at the end, otherwise at least one byte. */
    method Read(source: Content, pos: nat) returns (chunk: Option<Content>)
      requires pos <= |source|
      modifies this`luck, this`failures
      ensures |luck| <= |old(luck)|
      ensures chunk == None ==> exists e :: Noted(READ, Some(e))
      ensures chunk.Some? ==> failures == old(failures)
      ensures chunk.Some? ==> chunk.value <= source[pos..] && (chunk.value == [] <==> pos == |source|)
      ensures old(luck) == [] ==> luck == [] && chunk.Some?
    {
      var l := Draw();
      if l.Fails? {
        Note(READ, Some(l.errno));
        return None;
      }
      var most := if l.Short? && 0 < l.n < XFER_BUF_SIZE then l.n else XFER_BUF_SIZE;
      var n := if |source| - pos < most then |source| - pos else most;
      chunk := Some(source[pos..pos + n]);
      assert source[pos..pos + n] == source[pos..][..n];
    }

    /** Appends to a file; less than all of it when the disk is full, say. */
    method Write(p: Path, chunk: Content) returns (written: int)
      requires p in disk.files && chunk != []
      modifies this
      ensures exists c: Content :: c <= chunk && Went(WithContent(old(disk), p, old(disk).files[p].content + c))
                && (written == |chunk| <==> c == chunk)
      ensures written == |chunk| ==> failures == old(failures)
      ensures written != |chunk| ==> exists e :: Noted(WRITE, Some(e))
      ensures old(luck) == [] ==> luck == [] && written == |chunk|
    {
      var l := Draw();
      var n := if l.Fails? then 0 else if l.Short? && l.n < |chunk| then l.n else |chunk|;
      written := if l.Fails? then -1 else n;
      Step(WithContent(disk, p, disk.files[p].content + chunk[..n]));
      assert chunk[..n] <= chunk;
      Note(WRITE, if written == |chunk| then None else Some(if l.Fails? then l.errno else ENOSPC));
    }

    method Close(ghost operation: Operation) returns (error: Option<Errno>)
      modifies this`luck, this`failures
      ensures |luck| <= |old(luck)| && Noted(operation, error)
      ensures old(luck) == [] ==> luck == [] && error == None
    {
      var l := Draw();
      error := if l.Fails? then Some(l.errno) else None;
      Note(operation, error);
    }

    method Size(p: Path) returns (error: Option<Errno>, size: nat)
      modifies this`luck, this`failures
      ensures |luck| <= |old(luck)| && Noted(STAT, error)
      ensures error == None ==> p in disk.files && size == |disk.files[p].content|
      ensures old(luck) == [] ==> luck == [] && (error == None <==> p in disk.files)
    {
      var l := Draw();
      error, size := None, 0;
      if l.Fails? {
        error := Some(l.errno);
      } else if p in disk.files {
        size := |disk.files[p].content|;
      } else {
        error := Some(ENOENT);
      }
      Note(STAT, error);
    }

    method Rename(p: Path, q: Path) returns (error: Option<Errno>)
      requires p != q
      modifies this
      ensures error == None ==>
                && p in old(disk).files
                && Went(Renaming(old(disk), p, q))
      ensures error != None ==> Went(old(disk))
      ensures old(luck) == [] ==>
                && luck == [] && (error == None <==> p in old(disk).files && q !in old(disk).dirs)
                && error != Some(ENOMEM)
      ensures Noted(MOVE, error)
    {
      var l := Draw();
      error := if l.Fails? then Some(l.errno) else if p !in disk.files then Some(ENOENT)
          else if q in disk.dirs then Some(EIO) else None;
      Note(MOVE, error);
      Step(if error == None then Renaming(disk, p, q) else disk);
    }

    method Chmod(p: Path, mode: nat) returns (error: Option<Errno>)
      modifies this
      ensures error == None ==>
                && p in old(disk).files
                && Went(WithInfo(old(disk), p, old(disk).files[p].(mode := mode)))
      ensures error != None ==> Went(old(disk))
      ensures old(luck) == [] ==> luck == [] && (error == None <==> p in old(disk).files)
      ensures Noted(CHMOD, error)
    {
      var l := Draw();
      error := if l.Fails? then Some(l.errno) else if p !in disk.files then Some(ENOENT) else None;
      Note(CHMOD, error);
      Step(if error == None then WithInfo(disk, p, disk.files[p].(mode := mode)) else disk);
    }

    method Utimes(p: Path, mtime: int) returns (error: Option<Errno>)
      modifies this
      ensures error == None ==>
                && p in old(disk).files
                && Went(WithInfo(old(disk), p, old(disk).files[p].(mtime := mtime)))
      ensures error != None ==> Went(old(disk))
      ensures old(luck) == [] ==> luck == [] && (error == None <==> p in old(disk).files)
      ensures Noted(UTIMES, error)
    {
      var l := Draw();
      error := if l.Fails? then Some(l.errno) else if p !in disk.files then Some(ENOENT) else None;
      Note(UTIMES, error);
      Step(if error == None then WithInfo(disk, p, disk.files[p].(mtime := mtime)) else disk);
    }

    method Unlink(p: Path) returns (error: Option<Errno>)
      modifies this
      ensures failures == old(failures)
      ensures error == None ==> p in old(disk).files && Went(old(disk).(files := old(disk).files - {p}))
      ensures error != None ==> Went(old(disk))
      ensures old(luck) == [] ==> luck == [] && (error == None <==> p in old(disk).files)
    {
      var l := Draw();
      error := if l.Fails? then Some(l.errno) else if p !in disk.files then Some(ENOENT) else None;
      Step(if error == None then disk.(files := disk.files - {p}) else disk);
    }
  }

  predicate Extended(trail: seq<Disk>, before: seq<Disk>) { before <= trail }

  function WithInfo(d: Disk, p: Path, info: Info): Disk { d.(files := d.files[p := info]) }

  function Renaming(d: Disk, p: Path, q: Path): Disk requires p in d.files {
    d.(files := d.files[q := d.files[p]] - {p})
  }

  function WithContent(d: Disk, p: Path, c: Content): Disk requires p in d.files {
    WithInfo(d, p, d.files[p].(content := c))
  }

  // ---------- the push ----------

  /** What must hold of the disk `d` at every moment of a push onto `d0`: the destination is the old one or the whole
      new one; besides, only the temporary file and directories above the destination may appear. A file that happens
      to have the temporary name is not overwritten, but may be lost; then the destination is the old one. */
  predicate Safe(d0: Disk, d: Disk, source: Option<Content>, duri: Path, turi: Path) {
    && (Lookup(d, duri) == Lookup(d0, duri) || (duri in d.files && Some(d.files[duri].content) == source))
    && (forall p | p in d0.files.Keys + d.files.Keys && p != duri && p != turi :: Lookup(d, p) == Lookup(d0, p))
    && (turi in d0.files ==>
          && Lookup(d, duri) == Lookup(d0, duri)
          && (turi in d.files ==> d.files[turi] == d0.files[turi]))
    && d0.dirs <= d.dirs <= d0.dirs + Chain(Dirname(duri)) && (Rooted(d0.dirs) ==> Rooted(d.dirs))
  }

  predicate AllSafe(trail: seq<Disk>, from: nat, d0: Disk, source: Option<Content>, duri: Path, turi: Path) {
    forall i | from <= i < |trail| :: Safe(d0, trail[i], source, duri, turi)
  }

  /** Creates the temporary file, and the directories it needs. */
  method CreateTemp(vio: Vio, template: array<char>, digits: seq<Digit>, ghost d0: Disk,
                    ghost source: Option<Content>, duri: Path, ghost n: nat) returns (rc: int)
    requires vio.disk == d0 && |digits| == 6 && n <= |vio.trail|
    requires AllSafe(vio.trail, n, d0, source, duri, template[..])
    requires !Template(template[..]) && template.Length > 1 && template[..] != duri
    requires Dirname(template[..]) == Dirname(duri) && Harmless(vio.failures)
    modifies vio, template
    ensures if rc == 0 then Harmless(vio.failures) else Ended(vio.failures, rc)
    ensures template[..] == old(template[..]) && rc in {-1, 0, 1}
    ensures Extended(vio.trail, old(vio.trail)) && AllSafe(vio.trail, n, d0, source, duri, template[..])
    ensures Safe(d0, vio.disk, source, duri, template[..])
    ensures vio.disk.files == if rc == 0 then d0.files[template[..] := Info([], vio.newMode, 0)] else d0.files
    ensures rc == 0 ==> Free(d0, template[..]) && Dirname(duri) in vio.disk.dirs
    ensures old(vio.luck) == [] ==> vio.luck == [] && (rc == 0 <==> Free(d0, template[..]))
    ensures old(vio.luck) == [] ==> rc == if Free(d0, template[..]) then 0
              else if Chain(Dirname(duri)) !! d0.files.Keys then -1 else 1
  {
    ghost var turi, lucky := template[..], vio.luck == [];
    NotAbove(turi);
    var count := 0;
    while true
      invariant template[..] == turi && OnlyDirs(d0, vio.disk, duri)
      invariant Extended(vio.trail, old(vio.trail)) && AllSafe(vio.trail, n, d0, source, duri, turi)
      invariant count == 0 && (lucky ==> vio.luck == []) && Harmless(vio.failures)
      decreases |vio.luck|, if Dirname(duri) in vio.disk.dirs then 0 else 1
    {
      ghost var d, failures := vio.disk, vio.failures;
      var error := vio.Create(template[..]);
      NextFailure(failures, CREATE, error);
      DirsAreSafe(d0, d, source, duri, turi, vio.newMode);
      match error {
        case None =>
          return 0;
        case Some(EEXIST) =>
          var exceeded := count > 10;
          count := count + 1;
          var ok := false;
          if !exceeded {
            ok := TmpName(template, digits);
          }
          if !ok {
            return if exceeded then 1 else -1;
          }
        case Some(ENOENT) =>
          var tdir := Dirname(template[..]);
          var ok := MakeDirs(vio, tdir, d0, source, duri, turi, n);
        case Some(ENOMEM) => return -1;
        case _ => return 1;
      }
    }
    assert false;
  }

  lemma NextFailure(failures: seq<Failure>, operation: Operation, error: Option<Errno>)
    requires Harmless(failures)
    ensures error.Some? ==>
              var f, more := Failure(operation, error.value), failures + [Failure(operation, error.value)];
              (!Ends(f) ==> Harmless(more)) && (Ends(f) ==> Ended(more, if EndsAll(f) then -1 else 1))
  {
    if error.Some? { assert (failures + [Failure(operation, error.value)])[..|failures|] == failures; }
  }

  /** Only directories above the destination have appeared. */
  predicate OnlyDirs(d0: Disk, d: Disk, duri: Path) {
    d.files == d0.files && d0.dirs <= d.dirs <= d0.dirs + Chain(Dirname(duri)) && (Rooted(d0.dirs) ==> Rooted(d.dirs))
  }

  lemma DirsAreSafe(d0: Disk, d: Disk, source: Option<Content>, duri: Path, turi: Path, newMode: nat)
    requires OnlyDirs(d0, d, duri) && turi != duri && turi !in Chain(Dirname(duri))
    ensures Safe(d0, d, source, duri, turi)
    ensures turi !in d0.files ==> Safe(d0, d.(files := d.files[turi := Info([], newMode, 0)]), source, duri, turi)
    ensures CreateError(d, turi) == None ==> Free(d0, turi)
  {
  }

  method MakeDirs(vio: Vio, tdir: Path, ghost d0: Disk, ghost source: Option<Content>, duri: Path, ghost turi: Path,
                  ghost n: nat) returns (ok: bool)
    requires tdir == Dirname(duri) && OnlyDirs(d0, vio.disk, duri) && turi != duri && turi !in Chain(Dirname(duri))
    requires n <= |vio.trail|
    requires AllSafe(vio.trail, n, d0, source, duri, turi)
    modifies vio
    ensures OnlyDirs(d0, vio.disk, duri) && |vio.luck| <= |old(vio.luck)| && vio.failures == old(vio.failures)
    ensures Extended(vio.trail, old(vio.trail)) && AllSafe(vio.trail, n, d0, source, duri, turi)
    ensures |vio.luck| == |old(vio.luck)| && Chain(tdir) !! vio.disk.files.Keys ==> tdir in vio.disk.dirs
  {
    ghost var before := |vio.trail|;
    ok := vio.Mkdirs(tdir);
    forall i | n <= i < |vio.trail| ensures Safe(d0, vio.trail[i], source, duri, turi) {
      if i >= before { DirsAreSafe(d0, vio.trail[i], source, duri, turi, vio.newMode); }
    }
  }

  lemma ContentIsSafe(d0: Disk, d: Disk, source: Option<Content>, duri: Path, turi: Path, c: Content)
    requires Safe(d0, d, source, duri, turi) && turi !in d0.files && turi != duri && turi in d.files
    ensures Safe(d0, WithContent(d, turi, c), source, duri, turi)
  {
  }

  /** Copies the source into the temporary file, buffer by buffer. */
  method Copy(vio: Vio, source: Content, turi: Path, ghost d0: Disk, ghost duri: Path, ghost n: nat) returns (rc: int)
    requires turi !in d0.files && turi != duri && turi in vio.disk.files && vio.disk.files[turi].content == []
    requires n <= |vio.trail| && Harmless(vio.failures)
    requires Safe(d0, vio.disk, Some(source), duri, turi) && AllSafe(vio.trail, n, d0, Some(source), duri, turi)
    modifies vio
    ensures Extended(vio.trail, old(vio.trail)) && AllSafe(vio.trail, n, d0, Some(source), duri, turi)
    ensures Safe(d0, vio.disk, Some(source), duri, turi) && rc in {0, 1}
    ensures if rc == 0 then Harmless(vio.failures) else Ended(vio.failures, rc)
    ensures rc == 0 ==> vio.disk == WithContent(old(vio.disk), turi, source)
    ensures old(vio.luck) == [] ==> vio.luck == [] && rc == 0
  {
    ghost var d := vio.disk;
    var pos := 0;
    while true
      invariant 0 <= pos <= |source| && vio.disk == WithContent(d, turi, source[..pos])
      invariant Extended(vio.trail, old(vio.trail)) && AllSafe(vio.trail, n, d0, Some(source), duri, turi)
      invariant Harmless(vio.failures) && (old(vio.luck) == [] ==> vio.luck == [])
      decreases |source| - pos
    {
      ghost var failures := vio.failures;
      var chunk := vio.Read(source, pos);
      if chunk == None {
        EndsAtOnce(failures, vio.failures, READ);
        ContentIsSafe(d0, d, Some(source), duri, turi, source[..pos]);
        return 1;
      } else if chunk.value == [] {
        assert source[..pos] == source;
        ContentIsSafe(d0, d, Some(source), duri, turi, source);
        return 0;
      }
      var written := WriteTemp(vio, turi, chunk.value, d0, d, source, duri, n, source[..pos]);
      if written != |chunk.value| {
        return 1;
      }
      assert source[..pos] + chunk.value == source[..pos + |chunk.value|];
      pos := pos + |chunk.value|;
    }
    assert false;
  }

  method WriteTemp(vio: Vio, turi: Path, chunk: Content, ghost d0: Disk, ghost d: Disk, ghost source: Content,
                   ghost duri: Path, ghost n: nat, ghost before: Content) returns (written: int)
    requires turi !in d0.files && turi != duri && turi in d.files && vio.disk == WithContent(d, turi, before)
    requires chunk != [] && n <= |vio.trail| && Harmless(vio.failures)
    requires Safe(d0, d, Some(source), duri, turi) && AllSafe(vio.trail, n, d0, Some(source), duri, turi)
    modifies vio
    ensures Extended(vio.trail, old(vio.trail)) && AllSafe(vio.trail, n, d0, Some(source), duri, turi)
    ensures Safe(d0, vio.disk, Some(source), duri, turi) && turi in vio.disk.files
    ensures vio.disk == WithContent(d, turi, vio.disk.files[turi].content)
    ensures if written == |chunk| then Harmless(vio.failures) else Ended(vio.failures, 1)
    ensures written == |chunk| ==> vio.disk == WithContent(d, turi, before + chunk)
    ensures old(vio.luck) == [] ==> vio.luck == [] && written == |chunk|
  {
    ghost var failures := vio.failures;
    written := vio.Write(turi, chunk);
    ghost var c :| c <= chunk && vio.disk == WithContent(old(vio.disk), turi, before + c)
                   && (written == |chunk| <==> c == chunk);
    InfoTwice(d, turi, d.files[turi].(content := before), d.files[turi].(content := before + c));
    if written != |chunk| { EndsAtOnce(failures, vio.failures, WRITE); }
    ContentIsSafe(d0, d, Some(source), duri, turi, before + c);
  }

  lemma EndsAtOnce(failures: seq<Failure>, more: seq<Failure>, operation: Operation)
    requires Harmless(failures) && operation in {READ, WRITE}
    requires exists e :: more == failures + [Failure(operation, e)]
    ensures Ended(more, 1)
  {
    var e :| more == failures + [Failure(operation, e)];
    NextFailure(failures, operation, Some(e));
  }

  lemma RenamedIsSafe(d0: Disk, d: Disk, source: Content, duri: Path, turi: Path)
    requires Safe(d0, d, Some(source), duri, turi) && turi !in d0.files && turi != duri && turi in d.files
    requires d.files[turi].content == source
    ensures Safe(d0, Renaming(d, turi, duri), Some(source), duri, turi)
  {
  }

  lemma InfoIsSafe(d0: Disk, d: Disk, source: Content, duri: Path, turi: Path, info: Info)
    requires Safe(d0, d, Some(source), duri, turi) && turi !in d0.files && info.content == source
    ensures Safe(d0, WithInfo(d, duri, info), Some(source), duri, turi)
  {
  }

  lemma InfoTwice(d: Disk, p: Path, info: Info, info': Info)
    ensures WithInfo(WithInfo(d, p, info), p, info') == WithInfo(d, p, info')
    ensures p in d.files && info == d.files[p] ==> WithInfo(d, p, info) == d
  {
    if p in d.files && info == d.files[p] { assert d.files[p := info] == d.files; }
  }

  /** The temporary file checked and moved over the destination. */
  method Override(vio: Vio, source: Content, size: nat, turi: Path, duri: Path, ghost d0: Disk, ghost n: nat)
    returns (rc: int)
    requires turi !in d0.files && turi != duri && turi in vio.disk.files && vio.disk.files[turi].content == source
    requires n <= |vio.trail| && Harmless(vio.failures)
    requires Safe(d0, vio.disk, Some(source), duri, turi) && AllSafe(vio.trail, n, d0, Some(source), duri, turi)
    modifies vio
    ensures Extended(vio.trail, old(vio.trail)) && AllSafe(vio.trail, n, d0, Some(source), duri, turi)
    ensures Safe(d0, vio.disk, Some(source), duri, turi) && rc in {-1, 0, 1}
    ensures vio.disk == if rc == 0 then Renaming(old(vio.disk), turi, duri) else old(vio.disk)
    ensures rc == 0 ==> size == |source| && Harmless(vio.failures)
    ensures rc != 0 ==> Ended(vio.failures, rc) || (rc == 1 && size != |source| && Harmless(vio.failures))
    ensures old(vio.luck) == [] ==>
              vio.luck == [] && rc == if size != |source| || duri in old(vio.disk).dirs then 1 else 0
  {
    RenamedIsSafe(d0, vio.disk, source, duri, turi);
    rc := CheckTemp(vio, source, size, turi);
    if rc != 0 {
      return;
    }
    ghost var failures := vio.failures;
    var error := vio.Rename(turi, duri);
    NextFailure(failures, MOVE, error);
    assert Safe(d0, vio.disk, Some(source), duri, turi);
    if error != None {
      return if error == Some(ENOMEM) then -1 else 1;
    }
  }

  /** The files closed, and the size of the temporary file checked. */
  method CheckTemp(vio: Vio, source: Content, size: nat, turi: Path) returns (rc: int)
    requires turi in vio.disk.files && vio.disk.files[turi].content == source && Harmless(vio.failures)
    modifies vio`luck, vio`failures
    ensures if rc == 0 then size == |source| && Harmless(vio.failures)
            else Ended(vio.failures, rc) || (rc == 1 && size != |source| && Harmless(vio.failures))
    ensures old(vio.luck) == [] ==> vio.luck == [] && rc == if size != |source| then 1 else 0
  {
    ghost var failures := vio.failures;
    var ignored := vio.Close(CLOSE_SOURCE);
    NextFailure(failures, CLOSE_SOURCE, ignored);
    failures := vio.failures;
    var error := vio.Close(CLOSE_TEMP);
    NextFailure(failures, CLOSE_TEMP, error);
    if error == Some(ENOSPC) || error == Some(EDQUOT) {
      return -1;
    }
    var actual: nat;
    failures := vio.failures;
    error, actual := vio.Size(turi);
    NextFailure(failures, STAT, error);
    if error != None {
      return if error == Some(ENOMEM) then -1 else 1;
    }
    rc := if size != actual then 1 else 0;
  }

  /** The mode of the new destination, if it is not the default. */
  method SetMode(vio: Vio, source: Content, mode: nat, turi: Path, duri: Path, ghost d0: Disk, ghost n: nat)
    returns (rc: int)
    requires turi !in d0.files && turi != duri && duri in vio.disk.files
    requires vio.disk.files[duri] == Info(source, vio.newMode, 0) && n <= |vio.trail| && Harmless(vio.failures)
    requires Safe(d0, vio.disk, Some(source), duri, turi) && AllSafe(vio.trail, n, d0, Some(source), duri, turi)
    modifies vio
    ensures Extended(vio.trail, old(vio.trail)) && AllSafe(vio.trail, n, d0, Some(source), duri, turi)
    ensures Safe(d0, vio.disk, Some(source), duri, turi) && rc in {-1, 0, 1}
    ensures if rc == 0 then Harmless(vio.failures) else Ended(vio.failures, rc)
    ensures vio.disk ==
              if rc == 0 then WithInfo(old(vio.disk), duri, Info(source, vio.Mode(mode), 0)) else old(vio.disk)
    ensures old(vio.luck) == [] ==> vio.luck == [] && rc == 0
  {
    ghost var failures, info := vio.failures, Info(source, vio.Mode(mode), 0);
    if mode == DEFAULT_MODE {
      InfoTwice(vio.disk, duri, info, info);
      return 0;
    }
    InfoIsSafe(d0, vio.disk, source, duri, turi, info);
    var error := vio.Chmod(duri, mode);
    NextFailure(failures, CHMOD, error);
    rc := if error == None then 0 else if error == Some(ENOMEM) then -1 else 1;
  }

  /** The time of the new destination; an error is ignored. */
  method SetTime(vio: Vio, source: Content, mode: nat, mtime: int, turi: Path, duri: Path, ghost d0: Disk,
                 ghost n: nat)
    requires turi !in d0.files && turi != duri && duri in vio.disk.files
    requires vio.disk.files[duri] == Info(source, mode, 0) && n <= |vio.trail| && Harmless(vio.failures)
    requires Safe(d0, vio.disk, Some(source), duri, turi) && AllSafe(vio.trail, n, d0, Some(source), duri, turi)
    modifies vio
    ensures Extended(vio.trail, old(vio.trail)) && AllSafe(vio.trail, n, d0, Some(source), duri, turi)
    ensures Safe(d0, vio.disk, Some(source), duri, turi) && Harmless(vio.failures)
    ensures vio.disk == old(vio.disk) || vio.disk == WithInfo(old(vio.disk), duri, Info(source, mode, mtime))
    ensures old(vio.luck) == [] ==>
              vio.luck == [] && vio.disk == WithInfo(old(vio.disk), duri, Info(source, mode, mtime))
  {
    InfoIsSafe(d0, vio.disk, source, duri, turi, Info(source, mode, mtime));
    ghost var failures := vio.failures;
    var ignored := vio.Utimes(duri, mtime);
    NextFailure(failures, UTIMES, ignored);
  }

  /** The mode and the time of the new destination. */
  method SetInfo(vio: Vio, source: Content, mode: nat, mtime: int, turi: Path, duri: Path, ghost d0: Disk,
                 ghost n: nat) returns (rc: int)
    requires turi !in d0.files && turi != duri && duri in vio.disk.files
    requires vio.disk.files[duri] == Info(source, vio.newMode, 0) && n <= |vio.trail| && Harmless(vio.failures)
    requires Safe(d0, vio.disk, Some(source), duri, turi) && AllSafe(vio.trail, n, d0, Some(source), duri, turi)
    modifies vio
    ensures Extended(vio.trail, old(vio.trail)) && AllSafe(vio.trail, n, d0, Some(source), duri, turi)
    ensures Safe(d0, vio.disk, Some(source), duri, turi) && rc in {-1, 0, 1}
    ensures if rc == 0 then Harmless(vio.failures) else Ended(vio.failures, rc)
    ensures duri in vio.disk.files && vio.disk == WithInfo(old(vio.disk), duri, vio.disk.files[duri])
    ensures rc == 0 ==> vio.disk.files[duri].(mtime := 0) == Info(source, vio.Mode(mode), 0)
    ensures old(vio.luck) == [] ==>
              vio.luck == [] && rc == 0 && vio.disk.files[duri] == Info(source, vio.Mode(mode), mtime)
  {
    ghost var d, moded := vio.disk, Info(source, vio.Mode(mode), 0);
    InfoTwice(d, duri, d.files[duri], moded);
    InfoTwice(d, duri, moded, moded.(mtime := mtime));
    rc := SetMode(vio, source, mode, turi, duri, d0, n);
    if rc != 0 {
      return;
    }
    SetTime(vio, source, vio.Mode(mode), mtime, turi, duri, d0, n);
  }

  /** A destination is the address of a replica, a slash and the path of a file. */
  predicate FilePath(p: Path) { |p| > 1 && p[|p| - 1] != '/' }

  /** The name of the temporary file. */
  function TempName(duri: Path, digits: seq<Digit>): Path { duri + "." + Suffix(digits) }

  lemma TempNameFits(duri: Path, digits: seq<Digit>)
    requires |digits| == 6 && FilePath(duri)
    ensures var turi := TempName(duri, digits);
            !Template(turi) && |turi| > 1 && turi != duri && Dirname(turi) == Dirname(duri)
  {
    DrawnOnce(duri + ".", digits);
    NoSlash(digits);
    SameDirname(duri, "." + Suffix(digits));
    assert TempName(duri, digits) == duri + ("." + Suffix(digits));
  }

  /** Draws the name of the temporary file; the template is one, so this cannot fail. */
  method NameTemp(duri: Path, digits: seq<Digit>) returns (template: array<char>)
    requires |digits| == 6
    ensures fresh(template) && template[..] == TempName(duri, digits)
  {
    var s := duri + ".XXXXXX";
    template := new char[|s|](i requires 0 <= i < |s| => s[i]);
    assert template[..] == s && s[|s| - 6..] == "XXXXXX" && s[..|s| - 6] == duri + ".";
    var ok := TmpName(template, digits);
  }

  lemma FilledIs(d: Disk, turi: Path, duri: Path, source: Content, info: Info)
    requires turi in d.files && turi != duri
    ensures var whole := WithContent(d, turi, source); var moved := Renaming(whole, turi, duri);
            && whole.files - {turi} == d.files - {turi} && turi in whole.files
            && turi !in moved.files && duri in moved.files && moved.files[duri] == d.files[turi].(content := source)
            && WithInfo(moved, duri, info).files == (d.files - {turi})[duri := info]
  {
  }

  lemma CreatedAndGone(files: map<Path, Info>, p: Path, info: Info)
    requires p !in files
    ensures files[p := info] - {p} == files == files - {p}
  {
  }

  /** The steps from the empty temporary file to the complete destination. */
  method Fill(vio: Vio, source: Content, size: nat, mode: nat, mtime: int, turi: Path, duri: Path, ghost d0: Disk,
              ghost n: nat) returns (rc: int)
    requires turi !in d0.files && turi != duri && n <= |vio.trail| && Harmless(vio.failures)
    requires turi in vio.disk.files && vio.disk.files[turi] == Info([], vio.newMode, 0)
    requires Safe(d0, vio.disk, Some(source), duri, turi) && AllSafe(vio.trail, n, d0, Some(source), duri, turi)
    modifies vio
    ensures Extended(vio.trail, old(vio.trail)) && AllSafe(vio.trail, n, d0, Some(source), duri, turi)
    ensures Safe(d0, vio.disk, Some(source), duri, turi) && rc in {-1, 0, 1}
    ensures Told(vio.failures, Some(source), size, rc)
    ensures rc == 0 ==>
              && vio.disk.dirs == old(vio.disk).dirs && turi !in vio.disk.files && duri in vio.disk.files
              && vio.disk.files[duri].(mtime := 0) == Info(source, vio.Mode(mode), 0)
    ensures old(vio.luck) == [] ==>
              vio.luck == [] && rc == if size != |source| || duri in old(vio.disk).dirs then 1 else 0
    ensures old(vio.luck) == [] && rc == 0 ==>
              vio.disk.files == (old(vio.disk).files - {turi})[duri := Info(source, vio.Mode(mode), mtime)]
    ensures old(vio.luck) == [] && rc != 0 ==> vio.disk.files - {turi} == old(vio.disk).files - {turi}
  {
    FilledIs(vio.disk, turi, duri, source, Info(source, vio.Mode(mode), mtime));
    rc := Copy(vio, source, turi, d0, duri, n);
    if rc != 0 {
      return;
    }
    rc := Override(vio, source, size, turi, duri, d0, n);
    if rc != 0 {
      return;
    }
    rc := SetInfo(vio, source, mode, mtime, turi, duri, d0, n);
  }

  /** The steps up to a complete destination; `named` tells whether the temporary name was chosen. */
  method Transfer(vio: Vio, source: Option<Content>, size: nat, mode: nat, mtime: int, duri: Path, digits: seq<Digit>)
    returns (rc: int, named: bool)
    requires |digits| == 6 && FilePath(duri)
    modifies vio
    ensures Extended(vio.trail, old(vio.trail))
    ensures AllSafe(vio.trail, |old(vio.trail)|, old(vio.disk), source, duri, TempName(duri, digits))
    ensures Safe(old(vio.disk), vio.disk, source, duri, TempName(duri, digits)) && rc in {-1, 0, 1}
    ensures rc == 0 ==> Done(old(vio.disk), vio.disk, source, size, vio.Mode(mode), duri, TempName(duri, digits))
    ensures Told(vio.failures, source, size, rc)
    ensures old(vio.luck) == [] ==>
              && vio.luck == []
              && rc == Result(old(vio.disk), source, size, duri, TempName(duri, digits))
    ensures old(vio.luck) == [] && rc == 0 ==>
              vio.disk.files == old(vio.disk).files[duri := Info(source.value, vio.Mode(mode), mtime)]
    ensures (!named ==> vio.disk == old(vio.disk)) && (old(vio.luck) == [] ==> (named <==> source.Some?))
    ensures old(vio.luck) == [] && rc != 0 ==>
              vio.disk.files - {TempName(duri, digits)} == old(vio.disk).files - {TempName(duri, digits)}
  {
    ghost var d0, n, turi := vio.disk, |vio.trail|, TempName(duri, digits);
    TempNameFits(duri, digits);
    NotAbove(duri);
    vio.failures := [];
    var error := vio.Open(source);
    NextFailure([], OPEN, error);
    if error != None {
      return if error == Some(ENOMEM) then -1 else 1, false;
    }
    var template := NameTemp(duri, digits);
    rc := CreateTemp(vio, template, digits, d0, source, duri, n);
    if rc != 0 {
      return rc, true;
    }
    CreatedAndGone(d0.files, turi, Info([], vio.newMode, 0));
    rc := Fill(vio, source.value, size, mode, mtime, template[..], duri, d0, n);
    named := true;
  }

  /** What failed tells the result. */
  predicate Told(failures: seq<Failure>, source: Option<Content>, size: nat, rc: int) {
    || Ended(failures, rc)
    || (Harmless(failures) && source.Some? && rc == if size == |source.value| then 0 else 1)
  }

  /** The destination is complete and lies in a directory, and the temporary name, which was free, is free again. */
  predicate Done(d0: Disk, d: Disk, source: Option<Content>, size: nat, mode: nat, duri: Path, turi: Path) {
    && source.Some? && size == |source.value| && Free(d0, turi) && turi !in d.files
    && duri in d.files && d.files[duri].content == source.value && d.files[duri].mode == mode
    && Dirname(duri) in d.dirs
  }

  /** The result of a push when all operations work. */
  function Result(d0: Disk, source: Option<Content>, size: nat, duri: Path, turi: Path): int {
    if source == None then 1
    else if !(Chain(Dirname(duri)) !! d0.files.Keys) then 1
    else if turi in d0.files || turi in d0.dirs then -1
    else if size != |source.value| || duri in d0.dirs then 1
    else 0
  }

  /** Pushes a file. Whatever operation fails, and wherever a crash cuts the run short, the disk is safe; result 0 means
      that the destination is the source. When all operations work, the result and the disk are known exactly. */
  method PushFile(vio: Vio, source: Option<Content>, size: nat, mode: nat, mtime: int, duri: Path, digits: seq<Digit>)
    returns (rc: int, instruction: Instruction)
    requires |digits| == 6 && FilePath(duri)
    modifies vio
    ensures instruction == if rc == 0 then UPDATED else ERROR
    ensures old(vio.trail) <= vio.trail
    ensures forall i | |old(vio.trail)| <= i < |vio.trail| ::
              Safe(old(vio.disk), vio.trail[i], source, duri, TempName(duri, digits))
    ensures rc == 0 ==> Done(old(vio.disk), vio.disk, source, size, vio.Mode(mode), duri, TempName(duri, digits))
    ensures rc == 0 && Rooted(old(vio.disk).dirs) ==> vio.disk.dirs == old(vio.disk).dirs + Chain(Dirname(duri))
    ensures Told(vio.failures, source, size, rc)
    ensures old(vio.luck) == [] ==> rc == Result(old(vio.disk), source, size, duri, TempName(duri, digits))
    ensures old(vio.luck) == [] && rc == 0 ==>
              vio.disk.files == old(vio.disk).files[duri := Info(source.value, vio.Mode(mode), mtime)]
    ensures old(vio.luck) == [] && rc != 0 ==>
              vio.disk.files ==
              if source.Some? then old(vio.disk).files - {TempName(duri, digits)} else old(vio.disk).files
    ensures old(vio.luck) == [] ==>
              (OthersKept(old(vio.disk), vio.disk, duri) <==>
               source == None || TempName(duri, digits) !in old(vio.disk).files)
  {
    ghost var d0, n, turi := vio.disk, |vio.trail|, TempName(duri, digits);
    TempNameFits(duri, digits);
    var named;
    rc, named := Transfer(vio, source, size, mode, mtime, duri, digits);
    instruction := UPDATED;
    if rc == 0 && Rooted(d0.dirs) { RootedChain(vio.disk.dirs, Dirname(duri)); }
    if rc != 0 {
      instruction := ERROR;
      if named {
        UnlinkIsSafe(d0, vio.disk, source, duri, turi);
        var ignored := vio.Unlink(TempName(duri, digits));
        assert ignored != None && old(vio.luck) == [] ==> vio.disk.files == vio.disk.files - {turi};
      }
    }
    if old(vio.luck) == [] {
      var info := Info(if source.Some? then source.value else [], vio.Mode(mode), mtime);
      OthersKeptIff(d0, vio.disk, source, duri, info, turi, rc);
    }
  }

  lemma UnlinkIsSafe(d0: Disk, d: Disk, source: Option<Content>, duri: Path, turi: Path)
    requires Safe(d0, d, source, duri, turi) && turi != duri
    ensures Safe(d0, d.(files := d.files - {turi}), source, duri, turi)
  {
  }

  /** Every file but the destination is as it was. */
  predicate OthersKept(d0: Disk, d: Disk, duri: Path) {
    forall p | p in d0.files && p != duri :: p in d.files && d.files[p] == d0.files[p]
  }

  lemma OthersKeptIff(d0: Disk, d: Disk, source: Option<Content>, duri: Path, info: Info, turi: Path, rc: int)
    requires turi != duri && (rc == 0 ==> Free(d0, turi) && d.files == d0.files[duri := info])
    requires rc != 0 ==> d.files == if source.Some? then d0.files - {turi} else d0.files
    ensures OthersKept(d0, d, duri) <==> source == None || turi !in d0.files
  {
    if source.Some? && turi in d0.files {
      assert turi !in d.files;
    }
  }
}

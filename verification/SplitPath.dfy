/** The path splitter c_split_path() of c_path.c: one zeroed buffer that holds three strings. */
module SplitPaths {
  import opened Strings

  const NUL: char := '\0'

  /** The C string that starts at `i`. */
  function CStr(a: seq<char>, i: nat): string
    decreases |a| - i
  {
    if i >= |a| || a[i] == NUL then "" else [a[i]] + CStr(a, i + 1)
  }

  lemma {:induction false} CStrAt(p: seq<char>, s: string, r: seq<char>)
    requires NUL !in s && r != [] && r[0] == NUL
    ensures CStr(p + s + r, |p|) == s
    decreases |s|
  {
    if s != "" {
      assert p + s + r == (p + [s[0]]) + s[1..] + r;
      CStrAt(p + [s[0]], s[1..], r);
    } else {
      assert p + s + r == p + r;
    }
  }

  /** The buffer holds the string `s` after `p`, and a terminator after it. */
  ghost predicate Holds(a: seq<char>, p: seq<char>, s: string, r: seq<char>) {
    a == p + s + r && NUL !in s && r != [] && r[0] == NUL
  }

  lemma HoldsAt(a: seq<char>, p: seq<char>, s: string, r: seq<char>)
    requires Holds(a, p, s, r)
    ensures forall k | 0 <= k < |s| :: a[|p| + k] == s[k] && s[k] != NUL
    ensures a[|p| + |s|] == NUL
  {
    forall k | 0 <= k < |s| ensures a[|p| + k] == s[k] && s[k] != NUL { assert s[k] in s; }
  }

  method Strlen(a: array<char>, i: nat, ghost p: seq<char>, ghost s: string, ghost r: seq<char>) returns (n: nat)
    requires Holds(a[..], p, s, r) && i == |p|
    ensures n == |s|
  {
    n := 0;
    HoldsAt(a[..], p, s, r);
    while a[i + n] != NUL
      invariant 0 <= n <= |s|
      decreases |s| - n
    {
      assert a[..][i + n] != NUL;
      n := n + 1;
    }
    assert a[..][i + n] == NUL;
  }

  method Strrchr(a: array<char>, i: nat, c: char, ghost p: seq<char>, ghost s: string, ghost r: seq<char>)
    returns (k: int)
    requires Holds(a[..], p, s, r) && i == |p| && c != NUL
    ensures k == if LastOf(s, c) < 0 then -1 else i + LastOf(s, c)
  {
    k := -1;
    HoldsAt(a[..], p, s, r);
    var j := i;
    while a[j] != NUL
      invariant i <= j <= i + |s|
      invariant k == if LastOf(s[..j - i], c) < 0 then -1 else i + LastOf(s[..j - i], c)
      decreases i + |s| - j
    {
      assert a[..][j] != NUL && a[..][j] == s[j - i];
      assert s[..j + 1 - i] == s[..j - i] + [s[j - i]];
      assert s[..j + 1 - i][..j - i] == s[..j - i];
      if a[j] == c {
        k := j;
      }
      j := j + 1;
    }
    assert a[..][j] == NUL;
    assert s[..j - i] == s;
  }

  /** Moves `n` characters one place up: memmove() to an overlapping place. */
  method Shift(a: array<char>, x: nat, n: nat)
    requires 0 < n && x + n < a.Length
    modifies a
    ensures a[..] == old(a[..x]) + [old(a[x])] + old(a[x..x + n]) + old(a[x + n + 1..])
  {
    var j := n;
    while j > 0
      invariant 0 <= j <= n
      invariant forall k | 0 <= k < a.Length :: a[k] == if x + j < k <= x + n then old(a[k - 1]) else old(a[k])
    {
      a[x + j] := a[x + j - 1];
      j := j - 1;
    }
  }

  /** What the three parts of a path are. */
  predicate Splits(src: string, d: string, f: string, e: string) {
    && d + f + e == src
    && (d == "" || d[|d| - 1] == '/') && '/' !in f && '/' !in e
    && (e != "" ==> f != "" && ((e[0] == '.' && '.' !in e[1..]) || (e == "~" && '.' !in f[1..])))
    && (e == "" ==> (f != "" ==> '.' !in f[1..]) && (|f| > 1 ==> f[|f| - 1] != '~'))
  }

  /** No path can be split in two ways. */
  lemma SplitsOneWay(src: string, d: string, f: string, e: string, d': string, f': string, e': string)
    requires Splits(src, d, f, e) && Splits(src, d', f', e')
    ensures d == d' && f == f' && e == e'
  {
    SameDirectory(src, d, f + e, d', f' + e');
    var n := src[|d|..];
    assert n == f + e && n == f' + e';
    NotShorter(n, f, e, f', e');
    NotShorter(n, f', e', f, e);
    assert f == n[..|f|] && f' == n[..|f'|];
    assert e == n[|f|..] && e' == n[|f'|..];
  }

  lemma SameDirectory(src: string, d: string, n: string, d': string, n': string)
    requires src == d + n == d' + n' && '/' !in n && '/' !in n'
    requires (d == "" || d[|d| - 1] == '/') && (d' == "" || d'[|d'| - 1] == '/')
    ensures d == d'
  {
    NoLaterSlash(src, d, n, d', n');
    NoLaterSlash(src, d', n', d, n);
    assert d == src[..|d|] && d' == src[..|d'|];
  }

  lemma NoLaterSlash(src: string, d: string, n: string, d': string, n': string)
    requires src == d + n == d' + n' && '/' !in n && (d' == "" || d'[|d'| - 1] == '/')
    ensures |d'| <= |d|
  {
    assert forall c | c in n :: c != '/';
    forall k | |d| <= k < |src| ensures src[k] != '/' {
      assert src[k] == n[k - |d|];
    }
    assert d' != "" ==> src[|d'| - 1] == '/';
  }

  /** Where a name is split. */
  predicate SplitsName(n: string, f: string, e: string) {
    && n == f + e
    && (e != "" ==> f != "" && ((e[0] == '.' && '.' !in e[1..]) || (e == "~" && '.' !in f[1..])))
    && (e == "" ==> (f != "" ==> '.' !in f[1..]) && (|f| > 1 ==> f[|f| - 1] != '~'))
  }

  lemma NotShorter(n: string, f: string, e: string, f': string, e': string)
    requires SplitsName(n, f, e) && SplitsName(n, f', e')
    ensures |f| >= |f'|
  {
    if e != "" {
      var k, k' := |f|, |f'|;
      assert n[k] == e[0] && f[0] == n[0];
      if e[0] == '.' {
        DotAt(n, f', e', k);
        NoDotAfter(n, f, e);
        assert e' != "" ==> n[k'] == e'[0];
      } else {
        assert e' == "" ==> f' == n;
      }
    }
  }

  /** A dot behind the first character is not in the name part. */
  lemma DotAt(n: string, f: string, e: string, k: nat)
    requires SplitsName(n, f, e) && 1 <= k < |n| && n[k] == '.'
    ensures k < |f| ==> e != "" && e[0] == '.'
  {
    assert k < |f| ==> n[k] == f[1..][k - 1] && n[k] in f[1..];
  }

  lemma NoDotAfter(n: string, f: string, e: string)
    requires SplitsName(n, f, e) && e != "" && e[0] == '.'
    ensures forall j | |f| < j < |n| :: n[j] != '.'
  {
    forall j | |f| < j < |n| ensures n[j] != '.' {
      assert n[j] == e[1..][j - |f| - 1] && n[j] in e[1..];
    }
  }

  /** Splits a path into a directory, a file name and an extension that stay apart in one buffer of three bytes more. */
  method SplitPath(src: string) returns (buf: array<char>, directory: nat, filename: nat, extension: nat)
    requires NUL !in src
    ensures fresh(buf) && buf.Length == |src| + 3
    ensures Splits(src, CStr(buf[..], directory), CStr(buf[..], filename), CStr(buf[..], extension))
    ensures directory < buf.Length && filename < buf.Length && extension < buf.Length
  {
    buf := new char[|src| + 3](i => if 0 <= i < |src| then src[i] else NUL);
    assert buf[..] == src + Zeros(3);
    ghost var d, f;
    directory, filename, d, f := SplitDirectory(buf, src);
    ghost var pre, z := if d == "" then [] else d + [NUL], if d == "" then Zeros(3) else Zeros(2);
    ghost var g, e;
    extension, g, e := SplitName(buf, filename, pre, f, z);
    SplitsFrom(src, d, f, g, e);
    ReadBack(buf[..], src, d, f, g, e, directory, filename, extension);
  }

  lemma SplitsFrom(src: string, d: string, f: string, g: string, e: string)
    requires d + f == src && SplitsName(f, g, e) && '/' !in f && (d == "" || d[|d| - 1] == '/')
    ensures Splits(src, d, g, e)
  {
    assert d + g + e == d + (g + e);
    assert forall c | c in g || c in e :: c in f;
  }

  /** The three strings are where the indices say. */
  lemma ReadBack(b: seq<char>, src: string, d: string, f: string, g: string, e: string, directory: nat, filename: nat,
                 extension: nat)
    requires NUL !in src && d + f == src && SplitsName(f, g, e)
    requires var pre, z := if d == "" then [] else d + [NUL], if d == "" then Zeros(3) else Zeros(2);
             && b == (if e == "" then pre + f + z else pre + g + [NUL] + e + z[1..])
             && extension == (if e == "" then |src| + 1 else |pre| + |g| + 1) && filename == |pre|
    requires directory == if d == "" then |src| + 1 else 0
    ensures CStr(b, directory) == d && CStr(b, filename) == g && CStr(b, extension) == e
  {
    var pre, z := if d == "" then [] else d + [NUL], if d == "" then Zeros(3) else Zeros(2);
    assert forall c | c in d || c in g || c in e :: c in src;
    if e == "" {
      if d == "" { NameAlone(f, z); } else { NameAfter(d, f, z); }
    } else {
      if d == "" { TwoAlone(g, e, z[1..]); } else { TwoAfter(d, g, e, z[1..]); }
    }
  }

  lemma Regroup(a: seq<char>, b: seq<char>, c: seq<char>)
    ensures a + b + c == a + (b + c)
  {
  }

  lemma EndsAt(p: seq<char>, r: seq<char>)
    requires r != [] && r[0] == NUL
    ensures CStr(p + r, |p|) == ""
  {
  }

  lemma NameAlone(f: string, z: seq<char>)
    requires NUL !in f && |z| > 1 && z[0] == NUL && z[1] == NUL
    ensures var b := [] + f + z; CStr(b, 0) == f && CStr(b, |f| + 1) == ""
  {
    var b := [] + f + z;
    CStrAt([], f, z);
    assert b[|f| + 1] == z[1];
  }

  lemma NameAfter(d: string, f: string, z: seq<char>)
    requires NUL !in d && NUL !in f && z != [] && z[0] == NUL
    ensures var b := d + [NUL] + f + z; CStr(b, 0) == d && CStr(b, |d| + 1) == f && CStr(b, |d| + |f| + 1) == ""
  {
    CStrAt(d + [NUL], f, z);
    EndsAt(d + [NUL] + f, z);
    Regroup(d + [NUL], f, z);
    BeforeName(d, f + z);
  }

  lemma BeforeName(d: string, rest: seq<char>)
    requires NUL !in d
    ensures CStr(d + [NUL] + rest, 0) == d
  {
    CStrAt([], d, [NUL] + rest);
    Regroup(d, [NUL], rest);
    assert [] + d == d;
  }

  lemma TwoAlone(g: string, e: string, z: seq<char>)
    requires NUL !in g && NUL !in e && z != [] && z[0] == NUL
    ensures var b := [] + g + [NUL] + e + z; CStr(b, 0) == g && CStr(b, |g| + 1) == e && CStr(b, |g| + |e| + 1) == ""
  {
    assert [] + g == g;
    NameAfter(g, e, z);
  }

  lemma TwoAfter(d: string, g: string, e: string, z: seq<char>)
    requires NUL !in d && NUL !in g && NUL !in e && z != [] && z[0] == NUL
    ensures var b := d + [NUL] + g + [NUL] + e + z;
            CStr(b, 0) == d && CStr(b, |d| + 1) == g && CStr(b, |d| + 1 + |g| + 1) == e
  {
    var b, r := d + [NUL] + g + [NUL] + e + z, [NUL] + e + z;
    assert b == d + [NUL] + g + r;
    NameAfter(d, g, r);
    CStrAt(d + [NUL] + g + [NUL], e, z);
  }

  function Zeros(n: nat): seq<char> { seq(n, _ => NUL) }

  /** Takes the directory off, and shifts the name to make room for its terminator. */
  method SplitDirectory(buf: array<char>, src: string)
    returns (directory: nat, filename: nat, ghost d: string, ghost f: string)
    requires NUL !in src && buf[..] == src + Zeros(3)
    modifies buf
    ensures d + f == src && '/' !in f && (d == "" || d[|d| - 1] == '/')
    ensures buf[..] == if d == "" then f + Zeros(3) else d + [NUL] + f + Zeros(2)
    ensures directory == (if d == "" then |src| + 1 else 0) && filename == if d == "" then 0 else |d| + 1
  {
    assert buf[..] == [] + src + Zeros(3);
    var lastSep := Strrchr(buf, 0, '/', [], src, Zeros(3));
    d, f := src[..lastSep + 1], src[lastSep + 1..];
    directory, filename := |src| + 1, 0;
    if lastSep >= 0 {
      directory := 0;
      filename := CutAfter(buf, src, lastSep);
    }
  }

  /** Puts a terminator after the separator at `x`. */
  method CutAfter(buf: array<char>, src: string, x: nat) returns (filename: nat)
    requires NUL !in src && x < |src| && src[x] == '/' && buf[..] == src + Zeros(3)
    modifies buf
    ensures filename == x + 2 && buf[..] == src[..x + 1] + [NUL] + src[x + 1..] + Zeros(2)
  {
    ghost var p, e := src[..x], src[x..];
    assert src == p + e && forall c | c in e :: c in src;
    assert buf[..] == p + e + Zeros(3);
    var n := Strlen(buf, x, p, e, Zeros(3));
    Shift(buf, x, n);
    ghost var b := buf[..];
    SeparatorKept(b, p, e, Zeros(2));
    buf[x] := '/';
    buf[x + 1] := NUL;
    filename := x + 2;
    assert buf[..] == b[x := '/'][x + 1 := NUL];
    assert src[..x + 1] == p + ['/'] && src[x + 1..] == e[1..];
  }

  lemma SeparatorKept(b: seq<char>, p: string, e: string, z: seq<char>)
    requires e != "" && e[0] == '/' && b == p + ['/'] + e + z
    ensures b[|p| := '/'][|p| + 1 := NUL] == p + ['/'] + [NUL] + e[1..] + z
  {
  }

  /** Takes the extension off the name, and shifts it to make room for the terminator of the name. */
  method SplitName(buf: array<char>, filename: nat, ghost pre: seq<char>, ghost f: string, ghost z: seq<char>)
    returns (extension: nat, ghost g: string, ghost e: string)
    requires NUL !in f && |z| >= 2 && z == Zeros(|z|) && buf[..] == pre + f + z && filename == |pre|
    modifies buf
    ensures SplitsName(f, g, e)
    ensures buf[..] == if e == "" then old(buf[..]) else pre + g + [NUL] + e + z[1..]
    ensures extension == if e == "" then buf.Length - 2 else |pre| + |g| + 1
  {
    extension, g, e := buf.Length - 2, f, "";
    var dot := LastDot(buf, filename, pre, f, z);
    if dot >= 0 {
      extension, g, e := CutAt(buf, dot, pre, f, z);
    } else {
      assert buf[..] == pre + f + z;
      var len := Strlen(buf, filename, pre, f, z);
      if len > 1 {
        assert buf[..][filename + len - 1] == f[len - 1];
        if buf[filename + len - 1] == '~' {
          extension, g, e := CutAt(buf, filename + len - 1, pre, f, z);
          assert f[..len - 1][1..] <= f[1..];
        }
      }
    }
  }

  /** The last dot after the first character of the name. The pad behind the name keeps this inside the buffer. */
  method LastDot(buf: array<char>, filename: nat, ghost pre: seq<char>, ghost f: string, ghost z: seq<char>)
    returns (dot: int)
    requires NUL !in f && |z| >= 2 && z == Zeros(|z|) && buf[..] == pre + f + z && filename == |pre|
    ensures if f == "" then dot == -1
            else dot == if LastOf(f[1..], '.') < 0 then -1 else filename + 1 + LastOf(f[1..], '.')
  {
    ghost var p := if f == "" then pre + [NUL] else pre + [f[0]];
    ghost var s, r := if f == "" then "" else f[1..], if f == "" then z[1..] else z;
    assert buf[..] == p + s + r;
    dot := Strrchr(buf, filename + 1, '.', p, s, r);
  }

  /** Puts a terminator before the character at `x` of the name. */
  method CutAt(buf: array<char>, x: nat, ghost pre: seq<char>, ghost f: string, ghost z: seq<char>)
    returns (extension: nat, ghost g: string, ghost e: string)
    requires NUL !in f && |z| >= 2 && z == Zeros(|z|) && buf[..] == pre + f + z && |pre| <= x < |pre| + |f|
    modifies buf
    ensures g == f[..x - |pre|] && e == f[x - |pre|..] && extension == x + 1
    ensures buf[..] == pre + g + [NUL] + e + z[1..]
  {
    g, e := f[..x - |pre|], f[x - |pre|..];
    ghost var p := pre + g;
    assert f == g + e && forall c | c in e :: c in f;
    assert buf[..] == p + e + z;
    var n := Strlen(buf, x, p, e, z);
    NameParts(buf[..], p, e, z);
    Shift(buf, x, n);
    ghost var b := buf[..];
    assert b == p + [e[0]] + e + z[1..];
    Terminated(p, e[0], e, z[1..]);
    extension := x + 1;
    buf[x] := NUL;
    assert buf[..] == b[x := NUL];
  }

  lemma NameParts(b: seq<char>, p: seq<char>, e: string, z: seq<char>)
    requires b == p + e + z && e != "" && z != []
    ensures b[..|p|] == p && b[|p|] == e[0] && b[|p|..|p| + |e|] == e && b[|p| + |e| + 1..] == z[1..]
  {
  }

  lemma Terminated(p: seq<char>, c: char, e: string, z: seq<char>)
    ensures (p + [c] + e + z)[|p| := NUL] == p + [NUL] + e + z
  {
  }

  // ---------- the names of conflict copies ----------

  /** A time in the form 20130503-141527. */
  predicate Stamp(t: string) { |t| == 15 && forall c | c in t :: c == '-' || '0' <= c <= '9' }

  /** The name that _backup_path() of csync_propagate.c makes of the parts of a path. */
  function BackupPath(d: string, f: string, e: string, t: string): string { d + f + ("_conflict-" + t) + e }

  lemma StampChars(t: string)
    requires Stamp(t)
    ensures var c := "_conflict-" + t; '/' !in c && '.' !in c && c[|c| - 1] != '~' && c != ""
  {
    assert forall x | x in "_conflict-" :: x != '/' && x != '.';
    var c := "_conflict-" + t;
    assert c[|c| - 1] == t[14] && t[14] in t;
  }

  /** A conflict copy keeps the directory and the extension; the mark and the moment stand between them. */
  lemma BackupSplits(src: string, d: string, f: string, e: string, t: string)
    requires Splits(src, d, f, e) && Stamp(t)
    ensures Splits(BackupPath(d, f, e, t), d, f + "_conflict-" + t, e)
  {
    var c := "_conflict-" + t;
    StampChars(t);
    var g := f + "_conflict-" + t;
    assert g == f + c && BackupPath(d, f, e, t) == d + g + e;
    BehindFirst(f, c);
    assert g[|g| - 1] == c[|c| - 1];
  }

  lemma BehindFirst(f: string, c: string)
    requires c != ""
    ensures forall x | x in (f + c)[1..] :: (f != "" && x in f[1..]) || x in c
  {
    if f == "" {
      assert f + c == c;
    } else {
      assert (f + c)[1..] == f[1..] + c;
    }
  }

  /** At one moment, different paths get different names for their conflict copies. */
  lemma BackupsApart(src: string, d: string, f: string, e: string, src': string, d': string, f': string, e': string,
                     t: string)
    requires Splits(src, d, f, e) && Splits(src', d', f', e') && Stamp(t)
    requires BackupPath(d, f, e, t) == BackupPath(d', f', e', t)
    ensures src == src'
  {
    var c := "_conflict-" + t;
    StampChars(t);
    assert BackupPath(d, f, e, t) == d + (f + c + e) && BackupPath(d', f', e', t) == d' + (f' + c + e');
    SameName(d, f + c + e, d', f' + c + e');
    NoLaterCut(f, e, f', e', c);
    NoLaterCut(f', e', f, e, c);
    SameParts(f, e, f', e', c);
  }

  lemma SameName(d: string, n: string, d': string, n': string)
    requires d + n == d' + n' && '/' !in n && '/' !in n'
    requires (d == "" || d[|d| - 1] == '/') && (d' == "" || d'[|d'| - 1] == '/')
    ensures d == d' && n == n'
  {
    SameDirectory(d + n, d, n, d', n');
    assert n == (d + n)[|d|..] && n' == (d' + n')[|d'|..];
  }

  lemma SameParts(f: string, e: string, f': string, e': string, c: string)
    requires f + c + e == f' + c + e' && |f| == |f'|
    ensures f == f' && e == e'
  {
    var n := f + c + e;
    assert f == n[..|f|] && e == n[|f + c|..];
    assert f' == (f' + c + e')[..|f'|] && e' == (f' + c + e')[|f' + c|..];
  }

  lemma NoLaterCut(f: string, e: string, f': string, e': string, c: string)
    requires SplitsName(f + e, f, e) && SplitsName(f' + e', f', e') && f + c + e == f' + c + e'
    requires '.' !in c && c != "" && c[|c| - 1] != '~'
    ensures |f'| <= |f|
  {
    var n, k, k' := f + c + e, |f| + |c|, |f'| + |c|;
    assert forall j | k < j < |n| :: n[j] == e[1..][j - k - 1] && n[j] in e[1..];
    assert k' < |n| ==> n[k'] == e'[0];
    assert k < |n| ==> n[k] == e[0];
    assert e != "" && e[0] == '.' ==> n[k] == '.' && k >= 1;
    forall j | 1 <= j < k' ensures (f' != "" && n[j] in f'[1..]) || n[j] in c {
      if j < |f'| { assert n[j] == f'[1..][j - 1]; } else { assert n[j] == c[j - |f'|]; }
    }
    assert n[k - 1] == c[|c| - 1] && n[k' - 1] == c[|c| - 1];
  }
}

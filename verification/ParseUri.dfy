/** The URI parser c_parse_uri() of c_path.c. */
module ParseUris {
  import opened Options
  import opened Decimals
  import opened Strings

  datatype Uri = Uri(scheme: Option<string>, user: Option<string>, passwd: Option<string>, host: Option<string>,
                     port: Option<nat>, path: Option<string>)

  /** The result, and what is stored in the arguments; a failing parser has stored the fields it met before. */
  datatype Parsed = Parsed(rc: int, uri: Uri)

  const NOTHING := Uri(None, None, None, None, None, None)

  // ---------- the grammar by recursion ----------

  /** The longest prefix of characters that go on. */
  function Until(s: string, goes: char -> bool): (r: string)
    ensures r <= s
  {
    if s != "" && goes(s[0]) then [s[0]] + Until(s[1..], goes) else ""
  }

  predicate IsDigit(c: char) { '0' <= c <= '9' }
  predicate IsSchemeChar(c: char) { 'a' <= c <= 'z' || 'A' <= c <= 'Z' || IsDigit(c) || c == '+' || c == '-' }
  predicate IsAddressChar(c: char) { IsDigit(c) || 'a' <= c <= 'f' || 'A' <= c <= 'F' || c == '.' || c == ':' }
  predicate IsHexDigit(c: char) { DigitValue(c) < 16 }
  predicate IsOctalDigit(c: char) { DigitValue(c) < 8 }
  predicate NotUserEnd(c: char) { c != '@' && c != '/' }
  predicate NotHostEnd(c: char) { c != ':' && c != '/' }

  /** Whether the string starts with this character; the end of a C string starts with none. */
  predicate Starts(s: string, c: char) { s != "" && s[0] == c }

  function Parse(s: string): Parsed {
    if s == "" then Parsed(-1, NOTHING) else
    var a := Until(s, IsSchemeChar);
    var r := s[|a|..];
    if Starts(r, ':') then ParseAuthority(NOTHING.(scheme := Some(a)), r[1..])
    else ParseAuthority(NOTHING, s)
  }

  function ParseAuthority(u: Uri, s: string): Parsed {
    if |s| < 2 || s[0] != '/' || s[1] != '/' then ParsePath(u, s) else ParseUser(u, s[2..], ParseHost)
  }

  /** The user and the password, if there are any; what comes next is left to `next`. */
  function ParseUser(u: Uri, s: string, next: (Uri, string) -> Parsed): Parsed {
    var w := Until(s, NotUserEnd);
    if Starts(s[|w|..], '@') then next(WithUser(u, w), s[|w| + 1..]) else next(u, s)
  }

  /** What stands before the at sign is the user, and the password after the last colon. */
  function WithUser(u: Uri, w: string): Uri {
    var q := LastOf(w, ':');
    if q >= 0 then u.(user := Some(w[..q]), passwd := Some(w[q + 1..])) else u.(user := Some(w))
  }

  function ParseHost(u: Uri, s: string): Parsed {
    var (h, n) := HostOf(s);
    ParsePort(u.(host := Some(h)), s[n..])
  }

  /** An address in brackets or a name, and how far it reaches. */
  function HostOf(s: string): (r: (string, nat))
    ensures r.1 <= |s|
  {
    var b := if Starts(s, '[') then Until(s[1..], IsAddressChar) else "";
    if Starts(s, '[') && Starts(s[1 + |b|..], ']') then (b, |b| + 2)
    else
      var h := Until(s, NotHostEnd);
      (h, |h|)
  }

  function ParsePort(u: Uri, s: string): Parsed {
    if !Starts(s, ':') then ParsePath(u, s) else
    var (port, n) := PortOf(s[1..]);
    ParsePath(u.(port := Some(port)), s[1 + n..])
  }

  function ParsePath(u: Uri, s: string): Parsed {
    if s == "" then Parsed(0, u) else if s[0] == '/' then Parsed(0, u.(path := Some(s))) else Parsed(-1, u)
  }

  const ULONG_MAX: nat := 0xFFFF_FFFF_FFFF_FFFF

  /** A number by its prefix, hexadecimal, octal or decimal, and how far it reaches; 0 and nothing where no digit is. */
  function Magnitude(s: string): (r: (nat, nat))
    ensures r.1 <= |s|
  {
    if s == "" || !IsDigit(s[0]) then (0, 0)
    else if |s| > 2 && s[0] == '0' && (s[1] == 'x' || s[1] == 'X') && IsHexDigit(s[2]) then
      (Number(s[2..], 16, 0), 2 + |Until(s[2..], IsHexDigit)|)
    else if s[0] == '0' then (Number(s, 8, 0), |Until(s, IsOctalDigit)|)
    else (Number(s, 10, 0), |Until(s, IsDigit)|)
  }

  predicate IsBlank(c: char) { c == ' ' || '\t' <= c <= '\r' }

  /** strtoul() with base 0: blanks, a sign, and a number; what is too big becomes ULONG_MAX, a minus is taken modulo
      the size of an unsigned long, and the result is cut down to an unsigned int. */
  function Strtoul(s: string): (r: (nat, nat))
    ensures r.1 <= |s|
  {
    var b := |Until(s, IsBlank)|;
    var signed := b < |s| && (s[b] == '-' || s[b] == '+');
    var z := if signed then b + 1 else b;
    var (v, n) := Magnitude(s[z..]);
    (Cut(v, signed && s[b] == '-'), if n == 0 then 0 else z + n)
  }

  /** The port is whatever strtoul() makes of the text, but only where a digit comes first does the parser go on behind
      it. */
  function PortOf(s: string): (r: (nat, nat))
    ensures r.1 <= |s|
  {
    (Strtoul(s).0, if s != "" && IsDigit(s[0]) then Strtoul(s).1 else 0)
  }

  function Cut(v: nat, negative: bool): nat {
    var u := if v > ULONG_MAX then ULONG_MAX else if negative then ULONG_MAX + 1 - v else v;
    u % 0x1_0000_0000
  }

  // ---------- the parser ----------

  predicate At(s: string, i: nat, c: char) { i < |s| && s[i] == c }

  method Skip(s: string, p: nat, goes: char -> bool) returns (q: nat)
    requires p <= |s|
    ensures q == p + |Until(s[p..], goes)| && q <= |s| && s[p..q] == Until(s[p..], goes)
  {
    q := p;
    while q < |s| && goes(s[q])
      invariant p <= q <= |s| && |Until(s[p..], goes)| == q - p + |Until(s[q..], goes)|
    {
      UntilGoesOn(s, q, goes);
      q := q + 1;
    }
    UntilIsSlice(s, p, q, goes);
  }

  lemma UntilGoesOn(s: string, q: nat, goes: char -> bool)
    requires q < |s| && goes(s[q])
    ensures |Until(s[q..], goes)| == 1 + |Until(s[q + 1..], goes)|
  {
    assert s[q..][1..] == s[q + 1..];
  }

  lemma UntilIsSlice(s: string, p: nat, q: nat, goes: char -> bool)
    requires p <= q <= |s| && |Until(s[p..], goes)| == q - p + |Until(s[q..], goes)| && (q < |s| ==> !goes(s[q]))
    ensures Until(s[p..], goes) == s[p..q]
  {
    assert Until(s[q..], goes) == "";
    var u := Until(s[p..], goes);
    assert u == s[p..][..|u|];
  }

  /** Goes back from `p` to the last colon, or to `z`, and takes the user and the password. */
  method TakeUser(uri: string, z: nat, p: nat, u: Uri) returns (r: Uri)
    requires z <= p < |uri| && uri[p] != ':'
    ensures r == WithUser(u, uri[z..p])
  {
    ghost var w := uri[z..p];
    assert forall j | 0 <= j < |w| :: w[j] == uri[z + j];
    var q := p;
    while q > z && uri[q] != ':'
      invariant z <= q <= p && forall j | q < j < p :: uri[j] != ':'
    {
      q := q - 1;
    }
    if uri[q] == ':' {
      assert w[q - z] == ':' && LastOf(w, ':') == q - z;
      assert w[..q - z] == uri[z..q] && w[q - z + 1..] == uri[q + 1..p];
      r := u.(user := Some(uri[z..q]), passwd := Some(uri[q + 1..p]));
    } else {
      assert LastOf(w, ':') == -1;
      r := u.(user := Some(uri[z..p]));
    }
  }

  /** The user and the password, if there are any. */
  method ScanUser(uri: string, z0: nat, u: Uri, ghost next: (Uri, string) -> Parsed) returns (z: nat, r: Uri)
    requires z0 <= |uri|
    ensures z <= |uri| && ParseUser(u, uri[z0..], next) == next(r, uri[z..])
  {
    z, r := z0, u;
    var p := Skip(uri, z, NotUserEnd);
    Drops(uri, z, p);
    if At(uri, p, '@') {
      r := TakeUser(uri, z, p, u);
      z := p + 1;
    }
  }

  lemma Drops(s: string, z: nat, p: nat)
    requires z <= p <= |s|
    ensures s[z..][p - z..] == s[p..] && (p < |s| ==> s[z..][p - z + 1..] == s[p + 1..])
  {
  }

  /** The host: an address in brackets, or a name. */
  method ScanHost(uri: string, z0: nat, u: Uri) returns (p: nat, r: Uri)
    requires z0 <= |uri|
    ensures p <= |uri| && ParseHost(u, uri[z0..]) == ParsePort(r, uri[p..])
  {
    var h;
    h, p := CutHost(uri, z0);
    r := u.(host := Some(h));
    assert uri[z0..][p - z0..] == uri[p..];
  }

  method CutHost(uri: string, z0: nat) returns (h: string, p: nat)
    requires z0 <= |uri|
    ensures z0 <= p <= |uri| && HostOf(uri[z0..]) == (h, p - z0)
  {
    var z := z0;
    p := z;
    if At(uri, p, '[') {
      assert uri[z..][1..] == uri[z + 1..];
      p := Skip(uri, p + 1, IsAddressChar);
      assert uri[z..][p - z..] == uri[p..];
      if At(uri, p, ']') {
        z := z + 1;
        return uri[z..p], p + 1;
      }
    }
    p := Skip(uri, z, NotHostEnd);
    h := uri[z..p];
  }

  /** The port. */
  method ScanPort(uri: string, p0: nat, u: Uri) returns (p: nat, r: Uri)
    requires p0 <= |uri|
    ensures p <= |uri| && ParsePort(u, uri[p0..]) == ParsePath(r, uri[p..])
  {
    p, r := p0, u;
    if At(uri, p, ':') {
      p := p + 1;
      var z := p;
      assert uri[p0..][1..] == uri[z..];
      p := Skip(uri, p, IsDigit);
      var (port, n) := Strtoul(uri[z..]);
      assert PortOf(uri[z..]) == (port, if p > z then n else 0);
      if p > z {
        p := z + n;
      }
      r := u.(port := Some(port));
      assert uri[p0..][1 + PortOf(uri[z..]).1..] == uri[p..];
    }
  }

  /** Parses as the grammar says. */
  method ParseUri(uri: string) returns (rc: int, r: Uri)
    ensures Parse(uri) == Parsed(rc, r)
  {
    r := NOTHING;
    if uri == "" {
      return -1, r;
    }
    var p, z := 0, 0;
    assert uri[0..] == uri;
    p := Skip(uri, p, IsSchemeChar);
    if At(uri, p, ':') {
      r := r.(scheme := Some(uri[z..p]));
      assert uri[p..][1..] == uri[p + 1..];
      p := p + 1;
      z := p;
    }
    p := z;
    assert Parse(uri) == ParseAuthority(r, uri[z..]);
    if At(uri, p, '/') && At(uri, p + 1, '/') {
      assert uri[z..][2..] == uri[z + 2..];
      z, r := ScanUser(uri, z + 2, r, ParseHost);
      p, r := ScanHost(uri, z, r);
      p, r := ScanPort(uri, p, r);
    }
    assert Parse(uri) == ParsePath(r, uri[p..]);
    if p == |uri| {
      return 0, r;
    }
    if uri[p] == '/' {
      return 0, r.(path := Some(uri[p..]));
    }
    rc := -1;
  }

  // ---------- what is accepted ----------

  datatype Host = Name(name: string) | Address(address: string)
  datatype Authority = Authority(user: Option<string>, passwd: Option<string>, host: Host, port: Option<string>)
  datatype Parts = Parts(scheme: Option<string>, authority: Option<Authority>, path: Option<string>)

  /** Parts that the separators of the grammar cannot be mistaken for. */
  predicate Separable(p: Parts) {
    && (p.scheme.Some? ==> forall c | c in p.scheme.value :: IsSchemeChar(c))
    && (p.authority.Some? ==> SeparableAuthority(p.authority.value))
    && (p.path.Some? ==> Starts(p.path.value, '/') && (p.authority == None ==> !Starts(p.path.value[1..], '/')))
    && (p.scheme.Some? || p.authority.Some? || p.path.Some?)
  }

  predicate SeparableAuthority(a: Authority) {
    && SeparableUser(a)
    && SeparableHost(a.host)
    && (a.user == None && a.host.Name? ==> '@' !in a.host.name)
    && (a.port.Some? ==> PortText(a.port.value))
  }

  predicate SeparableUser(a: Authority) {
    && (a.user.Some? ==> forall c | c in a.user.value :: NotUserEnd(c))
    && (a.passwd.Some? ==> a.user.Some? && forall c | c in a.passwd.value :: NotUserEnd(c) && c != ':')
    && (a.user.Some? && a.passwd == None ==> ':' !in a.user.value)
  }

  /** A name may begin as an address does, but no bracket closes it. */
  predicate SeparableHost(h: Host) {
    match h
    case Name(n) => (forall c | c in n :: NotHostEnd(c)) && (Starts(n, '[') ==> Unclosed(n[1..]))
    case Address(d) => forall c | c in d :: IsAddressChar(c)
  }

  /** The characters of an address that come first are not followed by a closing bracket. */
  predicate Unclosed(s: string) { !Starts(s[|Until(s, IsAddressChar)|..], ']') }

  /** Nothing, or a number in base 10, 8 or 16. */
  predicate PortText(t: string) {
    || t == ""
    || (t[0] != '0' && forall c | c in t :: IsDigit(c))
    || (t[0] == '0' && forall c | c in t :: IsOctalDigit(c))
    || (|t| > 2 && t[0] == '0' && (t[1] == 'x' || t[1] == 'X') && forall c | c in t[2..] :: IsHexDigit(c))
  }

  function PortValue(t: string): nat { Cut(Magnitude(t).0, false) }

  function RenderHost(h: Host): string { match h case Name(n) => n case Address(d) => "[" + d + "]" }
  function RenderPort(port: Option<string>): string { if port == None then "" else ":" + port.value }
  function RenderUser(a: Authority): string {
    if a.user == None then "" else if a.passwd == None then a.user.value + "@"
        else a.user.value + ":" + a.passwd.value + "@"
  }
  function RenderPath(p: Option<string>): string { if p == None then "" else p.value }

  function RenderAuthority(a: Authority, path: string): string {
    RenderUser(a) + (RenderHost(a.host) + (RenderPort(a.port) + path))
  }

  /** [<scheme>:][//[<user>[:<password>]@]<host>[:<port>]][/<path>] */
  function Render(p: Parts): string {
    (if p.scheme == None then "" else p.scheme.value + ":")
    + (if p.authority == None then RenderPath(p.path)
       else "//" + RenderAuthority(p.authority.value, RenderPath(p.path)))
  }

  function HostField(h: Host): string { match h case Name(n) => n case Address(d) => d }

  function Fields(p: Parts): Uri {
    match p.authority
    case None => Uri(p.scheme, None, None, None, None, p.path)
    case Some(a) => Uri(p.scheme, a.user, a.passwd, Some(HostField(a.host)),
        if a.port == None then None else Some(PortValue(a.port.value)), p.path)
  }

  lemma {:induction false} UntilAll(a: string, rest: string, goes: char -> bool)
    requires (forall c | c in a :: goes(c)) && (rest == "" || !goes(rest[0]))
    ensures Until(a + rest, goes) == a && (a + rest)[|a|..] == rest
  {
    if a == "" {
      assert a + rest == rest;
    } else {
      assert (a + rest)[1..] == a[1..] + rest && a[0] in a && forall c | c in a[1..] :: c in a;
      UntilAll(a[1..], rest, goes);
    }
  }

  lemma {:induction false} UntilOnly(s: string, goes: char -> bool)
    ensures var u := Until(s, goes);
            (forall c | c in u :: goes(c)) && s == u + s[|u|..] && (|u| < |s| ==> !goes(s[|u|]))
  {
    if s != "" && goes(s[0]) {
      UntilOnly(s[1..], goes);
      var v := Until(s[1..], goes);
      assert Until(s, goes) == [s[0]] + v && s[1 + |v|..] == s[1..][|v|..];
    }
  }

  // ---------- ports ----------

  /** What may follow a host or a port. */
  predicate PathOrEnd(s: string) { s == "" || s[0] == '/' }

  lemma NumberStops(t: string, rest: string, base: nat)
    requires PathOrEnd(rest) && base <= 36 && forall c | c in t :: DigitValue(c) < base
    ensures Number(t + rest, base, 0) == Number(t, base, 0)
  {
    NumberJoins(t, rest, base, 0);
  }

  lemma NumberIsRead(t: string, rest: string)
    requires t != "" && PortText(t) && PathOrEnd(rest)
    ensures Magnitude(t + rest) == (Magnitude(t).0, |t|)
  {
    NumberReadTo(t, rest);
    NumberReadTo(t, "");
    assert t + "" == t;
  }

  function NumberIn(t: string): nat
    requires t != "" && PortText(t)
  {
    if |t| > 2 && (t[1] == 'x' || t[1] == 'X') then Number(t[2..], 16, 0)
    else if t[0] == '0' then Number(t, 8, 0) else Number(t, 10, 0)
  }

  lemma NumberReadTo(t: string, rest: string)
    requires t != "" && PortText(t) && PathOrEnd(rest)
    ensures Magnitude(t + rest) == (NumberIn(t), |t|)
  {
    var s := t + rest;
    if |t| > 2 && (t[1] == 'x' || t[1] == 'X') {
      assert s[2..] == t[2..] + rest && t[2] in t[2..] && t[1] in t;
      NumberStops(t[2..], rest, 16);
      UntilAll(t[2..], rest, IsHexDigit);
    } else if t[0] == '0' {
      if |t| > 1 { assert s[1] == t[1] && t[1] in t; } else { assert s[1..] == rest; }
      NumberStops(t, rest, 8);
      UntilAll(t, rest, IsOctalDigit);
    } else {
      assert t[0] in t;
      NumberStops(t, rest, 10);
      UntilAll(t, rest, IsDigit);
    }
  }

  lemma PortIsRead(t: string, rest: string)
    requires PortText(t) && PathOrEnd(rest)
    ensures PortOf(t + rest) == (PortValue(t), |t|)
  {
    var s := t + rest;
    assert s[0..] == s;
    if t == "" {
      assert s == rest;
    } else {
      assert t[0] in t && s[0] == t[0];
      NumberIsRead(t, rest);
    }
  }

  /** A port is taken as its number, in any of the bases, cut down to an unsigned int. */
  lemma PortsMean(n: nat)
    ensures var v := if n > ULONG_MAX then 0xFFFF_FFFF else n % 0x1_0000_0000;
            && PortText(Decimal(n)) && PortValue(Decimal(n)) == v
            && PortText("0" + Numeral(n, 8)) && PortValue("0" + Numeral(n, 8)) == v
            && PortText("0x" + Numeral(n, 16)) && PortValue("0x" + Numeral(n, 16)) == v
            && PortText("0X" + Numeral(n, 16)) && PortValue("0X" + Numeral(n, 16)) == v
  {
    assert Cut(n, false) == if n > ULONG_MAX then 0xFFFF_FFFF else n % 0x1_0000_0000;
    DecimalPort(n);
    OctalPort(n);
    HexPort(n, "0x");
    HexPort(n, "0X");
  }

  lemma PortNumber(t: string, n: nat)
    requires t != "" && PortText(t) && NumberIn(t) == n
    ensures PortValue(t) == Cut(n, false)
  {
    NumberReadTo(t, "");
    assert t + "" == t;
  }

  lemma DecimalPort(n: nat)
    ensures PortText(Decimal(n)) && PortValue(Decimal(n)) == Cut(n, false)
  {
    var t := Decimal(n);
    NoLeadingZero(n);
    NumberOfNumeral(n, 10);
    assert t[0] in t;
    if n == 0 {
      assert t == "0" && t[1..] == "";
    } else if |t| > 1 {
      assert t[1] in t;
    }
    PortNumber(t, n);
  }

  lemma OctalPort(n: nat)
    ensures var t := "0" + Numeral(n, 8); PortText(t) && PortValue(t) == Cut(n, false)
  {
    var d := Numeral(n, 8);
    var t := "0" + d;
    forall c | c in t ensures IsOctalDigit(c) { assert c == '0' || c in d; }
    assert t[1..] == d && t[1] in t;
    NumberOfNumeral(n, 8);
    PortNumber(t, n);
  }

  lemma HexPort(n: nat, prefix: string)
    requires prefix == "0x" || prefix == "0X"
    ensures var t := prefix + Numeral(n, 16); PortText(t) && PortValue(t) == Cut(n, false)
  {
    var t := prefix + Numeral(n, 16);
    assert t[2..] == Numeral(n, 16);
    NumberOfNumeral(n, 16);
    PortNumber(t, n);
  }

  /** Blanks and a sign may come before; the number ends before the path. */
  lemma SignedIsRead(blanks: string, sign: string, t: string, rest: string)
    requires (forall c | c in blanks :: IsBlank(c)) && sign in {"", "+", "-"}
    requires t != "" && PortText(t) && PathOrEnd(rest)
    ensures var n := NumberIn(t);
            Strtoul(blanks + (sign + (t + rest))) ==
              (if n > ULONG_MAX then 0xFFFF_FFFF else (if sign == "-" then -1 else 1) * n % 0x1_0000_0000,
               |blanks| + |sign| + |t|)
  {
    var s, r := blanks + (sign + (t + rest)), sign + (t + rest);
    assert t[0] in t && IsDigit(t[0]) && (t + rest)[0] == t[0];
    assert r[0] == if sign == "" then t[0] else sign[0];
    UntilAll(blanks, r, IsBlank);
    var b := |blanks|;
    assert s[b] == r[0] && s[b + |sign|..] == t + rest;
    NumberReadTo(t, rest);
    CutIs(NumberIn(t), sign == "-");
  }

  lemma CutIs(n: nat, negative: bool)
    ensures Cut(n, negative) ==
              if n > ULONG_MAX then 0xFFFF_FFFF else (if negative then -1 else 1) * n % 0x1_0000_0000
  {
    if negative { assert (0x1_0000_0000 * 0x1_0000_0000 - n) % 0x1_0000_0000 == (-1 * n) % 0x1_0000_0000; }
  }

  /** The number that is read is the text of a port. */
  lemma TextOfNumber(s: string)
    requires s != "" && IsDigit(s[0])
    ensures PortText(s[..Magnitude(s).1])
  {
    if |s| > 2 && s[0] == '0' && (s[1] == 'x' || s[1] == 'X') && IsHexDigit(s[2]) {
      UntilOnly(s[2..], IsHexDigit);
      var u := Until(s[2..], IsHexDigit);
      assert s[..2 + |u|][2..] == u && |u| > 0;
    } else if s[0] == '0' {
      UntilOnly(s, IsOctalDigit);
    } else {
      UntilOnly(s, IsDigit);
    }
  }

  // ---------- what is rendered is parsed ----------

  lemma PortBack(u: Uri, port: Option<string>, path: string)
    requires PathOrEnd(path) && (port.Some? ==> PortText(port.value))
    ensures ParsePort(u, RenderPort(port) + path) ==
              ParsePath(if port == None then u else u.(port := Some(PortValue(port.value))), path)
  {
    if port == None {
      assert "" + path == path;
    } else {
      PortIsRead(port.value, path);
      PortIsTaken(u, port.value, PortValue(port.value), path);
    }
  }

  lemma PortIsTaken(u: Uri, d: string, port: nat, path: string)
    requires PortOf(d + path) == (port, |d|)
    ensures ParsePort(u, ":" + d + path) == ParsePath(u.(port := Some(port)), path)
  {
    var s := ":" + d + path;
    assert s[1..] == d + path && s[1 + |d|..] == path;
  }

  /** What may follow a host. */
  predicate AfterHost(s: string) { s == "" || s[0] == '/' || s[0] == ':' }

  lemma HostBack(u: Uri, h: Host, rest: string)
    requires SeparableHost(h) && AfterHost(rest) && Unclosed(rest)
    ensures ParseHost(u, RenderHost(h) + rest) == ParsePort(u.(host := Some(HostField(h))), rest)
  {
    match h
    case Name(n) => NameBack(u, n, rest);
    case Address(d) => AddressBack(u, d, rest);
  }

  lemma NameBack(u: Uri, n: string, rest: string)
    requires SeparableHost(Name(n)) && AfterHost(rest) && Unclosed(rest)
    ensures ParseHost(u, n + rest) == ParsePort(u.(host := Some(n)), rest)
  {
    NameIsHost(n, rest);
    assert (n + rest)[|n|..] == rest;
  }

  lemma NameIsHost(n: string, rest: string)
    requires SeparableHost(Name(n)) && AfterHost(rest) && Unclosed(rest)
    ensures HostOf(n + rest) == (n, |n|)
  {
    UntilAll(n, rest, NotHostEnd);
    assert n == "" ==> n + rest == rest;
    if Starts(n, '[') {
      NotClosedLater(n, rest);
    }
    NoAddress(n + rest);
  }

  lemma NotClosedLater(n: string, rest: string)
    requires n != "" && Unclosed(n[1..]) && Unclosed(rest)
    ensures Unclosed((n + rest)[1..])
  {
    assert (n + rest)[1..] == n[1..] + rest;
    UnclosedJoins(n[1..], rest);
  }

  lemma NoAddress(s: string)
    requires Starts(s, '[') ==> Unclosed(s[1..])
    ensures HostOf(s) == (Until(s, NotHostEnd), |Until(s, NotHostEnd)|)
  {
    if Starts(s, '[') {
      var b := Until(s[1..], IsAddressChar);
      assert s[1 + |b|..] == s[1..][|b|..];
    }
  }

  lemma {:induction false} UnclosedJoins(m: string, rest: string)
    requires Unclosed(m) && Unclosed(rest)
    ensures Unclosed(m + rest)
  {
    if m == "" {
      assert m + rest == rest;
    } else if IsAddressChar(m[0]) {
      UnclosedNext(m);
      UnclosedJoins(m[1..], rest);
      UnclosedNext(m + rest);
      assert (m + rest)[1..] == m[1..] + rest;
    } else {
      assert Until(m, IsAddressChar) == Until(m + rest, IsAddressChar) == "" && m[0..] == m;
    }
  }

  lemma UnclosedNext(m: string)
    requires m != "" && IsAddressChar(m[0])
    ensures Unclosed(m) <==> Unclosed(m[1..])
  {
    var u := Until(m[1..], IsAddressChar);
    assert Until(m, IsAddressChar) == [m[0]] + u && m[1 + |u|..] == m[1..][|u|..];
  }

  /** What follows a host closes no bracket. */
  lemma RestUnclosed(port: Option<string>, path: string)
    requires PathOrEnd(path) && (port.Some? ==> PortText(port.value))
    ensures Unclosed(RenderPort(port) + path) && AfterHost(RenderPort(port) + path)
  {
    var p := RenderPort(port);
    assert path[0..] == path;
    forall c | c in p ensures c != ']' { assert c == ':' || c in port.value; PortChars(port.value); }
    assert forall k | 0 <= k <= |p| :: p[k..] != "" ==> p[k..][0] in p;
    UnclosedJoins(p, path);
  }

  lemma PortChars(t: string)
    requires PortText(t)
    ensures forall c | c in t :: c != ']' && NotUserEnd(c)
  {
    forall c | c in t ensures c != ']' && NotUserEnd(c) {
      var i :| 0 <= i < |t| && t[i] == c;
      if i >= 2 { assert t[2..][i - 2] == c; }
      assert i >= 2 && c in t[2..] ==> IsHexDigit(c);
    }
  }

  lemma AddressBack(u: Uri, d: string, rest: string)
    requires forall c | c in d :: IsAddressChar(c)
    ensures ParseHost(u, "[" + d + "]" + rest) == ParsePort(u.(host := Some(d)), rest)
  {
    var s := "[" + d + "]" + rest;
    UntilAll(d, "]" + rest, IsAddressChar);
    assert s[1..] == d + ("]" + rest);
    assert s[1 + |d|..] == "]" + rest && s[|d| + 2..] == rest;
  }

  lemma UserBack(u: Uri, a: Authority, rest: string, next: (Uri, string) -> Parsed)
    requires SeparableUser(a) && (a.user == None ==> NoAtFirst(rest))
    ensures ParseUser(u, RenderUser(a) + rest, next) ==
              next(u.(user := if a.user == None then u.user else a.user,
                      passwd := if a.passwd == None then u.passwd else a.passwd), rest)
  {
    var s := RenderUser(a) + rest;
    if a.user == None {
      assert s == rest;
    } else {
      var w := if a.passwd == None then a.user.value else a.user.value + ":" + a.passwd.value;
      assert s == w + ("@" + rest);
      UntilAll(w, "@" + rest, NotUserEnd);
      assert ("@" + rest)[1..] == rest;
      LastColonIs(a);
    }
  }

  /** The text up to the first slash holds no at sign. */
  predicate NoAtFirst(s: string) { var w := Until(s, NotUserEnd); !Starts(s[|w|..], '@') }

  lemma LastColonIs(a: Authority)
    requires SeparableUser(a) && a.user.Some?
    ensures if a.passwd == None then LastOf(a.user.value, ':') == -1
            else
              var w := a.user.value + ":" + a.passwd.value;
              && LastOf(w, ':') == |a.user.value|
              && w[..|a.user.value|] == a.user.value && w[|a.user.value| + 1..] == a.passwd.value
  {
    if a.passwd.Some? {
      var w := a.user.value + ":" + a.passwd.value;
      forall j | |a.user.value| < j < |w| ensures w[j] != ':' {
        assert w[j] == a.passwd.value[j - |a.user.value| - 1] && w[j] in a.passwd.value;
      }
      assert w[|a.user.value|] == ':';
    }
  }

  /** Without a user nothing before the path is taken for one. */
  lemma NoUser(a: Authority, path: string)
    requires SeparableAuthority(a) && a.user == None && PathOrEnd(path)
    ensures NoAtFirst(RenderHost(a.host) + (RenderPort(a.port) + path))
  {
    var h, p := RenderHost(a.host), RenderPort(a.port);
    forall c | c in h + p ensures NotUserEnd(c) {
      if c in h {
        match a.host
        case Name(n) => assert NotHostEnd(c);
        case Address(d) => assert c == '[' || c == ']' || c in d;
      } else {
        assert c == ':' || c in a.port.value;
        PortChars(a.port.value);
      }
    }
    UntilAll(h + p, path, NotUserEnd);
    assert h + (p + path) == (h + p) + path;
  }

  lemma AuthorityBack(u: Uri, a: Authority, path: string)
    requires SeparableAuthority(a) && PathOrEnd(path) && u == Uri(u.scheme, None, None, None, None, None)
    ensures ParseUser(u, RenderAuthority(a, path), ParseHost) ==
            ParsePath(Fields(Parts(u.scheme, Some(a), None)), path)
  {
    var u1 := u.(user := a.user, passwd := a.passwd);
    var rest := RenderPort(a.port) + path;
    if a.user == None { NoUser(a, path); }
    UserBack(u, a, RenderHost(a.host) + rest, ParseHost);
    RestUnclosed(a.port, path);
    HostBack(u1, a.host, rest);
    PortBack(u1.(host := Some(HostField(a.host))), a.port, path);
  }

  /** What is rendered from separable parts parses to their fields. */
  lemma RoundTrip(p: Parts)
    requires Separable(p)
    ensures Parse(Render(p)) == Parsed(0, Fields(p))
  {
    var path := RenderPath(p.path);
    var u := Uri(p.scheme, None, None, None, None, None);
    var rest := if p.authority == None then path else "//" + RenderAuthority(p.authority.value, path);
    assert Render(p) == (if p.scheme == None then "" else p.scheme.value + ":") + rest;
    SchemeBack(p.scheme, rest, Render(p));
    if p.authority.Some? {
      AuthorityBack(u, p.authority.value, path);
      assert rest[2..] == RenderAuthority(p.authority.value, path);
    }
  }

  lemma SchemeBack(scheme: Option<string>, rest: string, s: string)
    requires PathOrEnd(rest) && (scheme == None ==> rest != "")
    requires (scheme.Some? ==> forall c | c in scheme.value :: IsSchemeChar(c))
    requires s == (if scheme == None then "" else scheme.value + ":") + rest
    ensures Parse(s) == ParseAuthority(Uri(scheme, None, None, None, None, None), rest)
  {
    if scheme.Some? { SchemeGiven(scheme.value, rest); } else { assert s == rest; }
  }

  lemma SchemeGiven(a: string, rest: string)
    requires forall c | c in a :: IsSchemeChar(c)
    ensures Parse(a + ":" + rest) == ParseAuthority(Uri(Some(a), None, None, None, None, None), rest)
  {
    assert a + ":" + rest == a + (":" + rest);
    UntilAll(a, ":" + rest, IsSchemeChar);
    assert (":" + rest)[1..] == rest;
  }

  // ---------- what is parsed was rendered ----------

  lemma PortTaken(u: Uri, s: string) returns (port: Option<string>, path: string)
    requires ParsePort(u, s).rc == 0
    ensures s == RenderPort(port) + path && PathOrEnd(path) && (port.Some? ==> PortText(port.value))
  {
    if Starts(s, ':') {
      var t := s[1..];
      var (v, n) := PortOf(t);
      port, path := Some(t[..n]), t[n..];
      assert path == s[1 + n..] && s == ":" + t;
      TextOfPort(t);
    } else {
      port, path := None, s;
    }
  }

  lemma TextOfPort(t: string)
    ensures PortText(t[..PortOf(t).1])
  {
    if t != "" && IsDigit(t[0]) {
      assert t[0..] == t;
      TextOfNumber(t);
    }
  }

  lemma HostTaken(s: string) returns (h: Host)
    ensures s == RenderHost(h) + s[HostOf(s).1..] && SeparableHost(h)
  {
    if Starts(s, '[') && !Unclosed(s[1..]) {
      UntilOnly(s[1..], IsAddressChar);
      var b := Until(s[1..], IsAddressChar);
      assert s[1 + |b|..] == s[1..][|b|..];
      h := Address(b);
      assert s == "[" + b + "]" + s[|b| + 2..];
    } else {
      NoAddress(s);
      UntilOnly(s, NotHostEnd);
      var n := Until(s, NotHostEnd);
      h := Name(n);
      if Starts(n, '[') {
        assert s[1..] == n[1..] + s[|n|..];
        UnclosedPrefix(n[1..], s[|n|..], s[1..]);
      }
    }
  }

  lemma {:induction false} UnclosedPrefix(m: string, rest: string, s: string)
    requires s == m + rest && Unclosed(s)
    ensures Unclosed(m)
  {
    if m != "" {
      if IsAddressChar(m[0]) {
        UnclosedNext(m);
        UnclosedNext(s);
        UnclosedPrefix(m[1..], rest, s[1..]);
      } else {
        assert Until(m, IsAddressChar) == Until(s, IsAddressChar) == "" && m[0..] == m && s[0..] == s;
      }
    }
  }

  lemma UserTaken(u: Uri, s: string, next: (Uri, string) -> Parsed)
    returns (user: Option<string>, passwd: Option<string>, rest: string, v: Uri)
    requires ParseUser(u, s, next).rc == 0
    ensures var a := Authority(user, passwd, Name(""), None);
            SeparableUser(a) && s == RenderUser(a) + rest && (user == None ==> NoAtFirst(rest))
    ensures next(v, rest).rc == 0
  {
    var w := Until(s, NotUserEnd);
    UntilOnly(s, NotUserEnd);
    if Starts(s[|w|..], '@') {
      v, rest := WithUser(u, w), s[|w| + 1..];
      user, passwd := PasswordTaken(w);
      assert s == w + "@" + rest;
    } else {
      user, passwd, rest, v := None, None, s, u;
    }
  }

  lemma PasswordTaken(w: string) returns (user: Option<string>, passwd: Option<string>)
    requires forall c | c in w :: NotUserEnd(c)
    ensures var a := Authority(user, passwd, Name(""), None);
            SeparableUser(a) && user.Some? && RenderUser(a) == w + "@"
  {
    var q := LastOf(w, ':');
    if q >= 0 {
      user, passwd := Some(w[..q]), Some(w[q + 1..]);
      assert w == w[..q] + ":" + w[q + 1..];
    } else {
      user, passwd := Some(w), None;
    }
  }

  lemma {:induction false} AtInName(n: string, rest: string)
    requires '@' in n && forall c | c in n :: NotHostEnd(c)
    ensures !NoAtFirst(n + rest)
  {
    var s := n + rest;
    assert n[0] in n;
    if NotUserEnd(n[0]) {
      assert '@' in n[1..] && s[1..] == n[1..] + rest;
      AtInName(n[1..], rest);
      var w := Until(s[1..], NotUserEnd);
      assert Until(s, NotUserEnd) == [s[0]] + w && s[1 + |w|..] == s[1..][|w|..];
    } else {
      assert Until(s, NotUserEnd) == "" && s[0..] == s;
    }
  }

  lemma AuthorityTaken(u: Uri, s: string) returns (a: Authority, path: string)
    requires ParseUser(u, s, ParseHost).rc == 0
    ensures SeparableAuthority(a) && s == RenderAuthority(a, path) && PathOrEnd(path)
  {
    var user, passwd, rest, v := UserTaken(u, s, ParseHost);
    var host := HostTaken(rest);
    var rest' := rest[HostOf(rest).1..];
    var port;
    port, path := PortTaken(v.(host := Some(HostOf(rest).0)), rest');
    a := Authority(user, passwd, host, port);
    assert RenderUser(a) == RenderUser(Authority(user, passwd, Name(""), None));
    if user == None && host.Name? && '@' in host.name { AtInName(host.name, rest'); }
  }

  /** Result 0 leaves no character aside: what is accepted is what separable parts render to. */
  lemma AcceptedExactly(s: string)
    ensures Parse(s).rc == 0 <==> exists p :: Separable(p) && s == Render(p)
  {
    if Parse(s).rc == 0 {
      var p := PartsTaken(s);
    } else if exists p :: Separable(p) && s == Render(p) {
      var p :| Separable(p) && s == Render(p);
      RoundTrip(p);
    }
  }

  lemma PartsTaken(s: string) returns (p: Parts)
    requires Parse(s).rc == 0
    ensures Separable(p) && s == Render(p)
  {
    var scheme, rest := SchemeTaken(s);
    var authority, path := RestTaken(NOTHING.(scheme := scheme), rest);
    p := Parts(scheme, authority, path);
  }

  lemma SchemeTaken(s: string) returns (scheme: Option<string>, rest: string)
    requires Parse(s).rc == 0
    ensures s == (if scheme == None then "" else scheme.value + ":") + rest && s != ""
    ensures scheme.Some? ==> forall c | c in scheme.value :: IsSchemeChar(c)
    ensures ParseAuthority(NOTHING.(scheme := scheme), rest).rc == 0
  {
    var a := Until(s, IsSchemeChar);
    UntilOnly(s, IsSchemeChar);
    scheme, rest := None, s;
    if Starts(s[|a|..], ':') {
      scheme, rest := Some(a), s[|a|..][1..];
    }
  }

  lemma RestTaken(u: Uri, s: string) returns (authority: Option<Authority>, path: Option<string>)
    requires ParseAuthority(u, s).rc == 0
    ensures authority.Some? ==> SeparableAuthority(authority.value)
    ensures path.Some? ==> Starts(path.value, '/') && (authority == None ==> !Starts(path.value[1..], '/'))
    ensures s == if authority == None then RenderPath(path)
                 else "//" + RenderAuthority(authority.value, RenderPath(path))
  {
    var rest := s;
    authority := None;
    if |s| >= 2 && s[0] == '/' && s[1] == '/' {
      var a;
      a, rest := AuthorityTaken(u, s[2..]);
      authority := Some(a);
    }
    path := if rest == "" then None else Some(rest);
  }
}

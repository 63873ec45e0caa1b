/** The name grammars the statements share: repository identities, ref names and
    origins (`scripts/golden/grants_ref.py` and `url_token_ref.py`). */
module Names {
  import opened Option
  import opened Texts
  import Decimal
  import Hex
  import Utf8

  /** A character a statement field may hold. */
  predicate FieldChar(c: char) {
    0x21 as char <= c <= 0x7E as char
  }

  /** A statement character: a field character or the line feed between fields. */
  predicate StatementChar(c: char) {
    c == '\n' || FieldChar(c)
  }

  predicate IsField(s: string) {
    s != "" && forall i | 0 <= i < |s| :: FieldChar(s[i])
  }

  lemma FieldHasNoBreak(s: string)
    requires IsField(s)
    ensures !Has(s, '\n')
  {
  }

  lemma HexIsField(s: string, n: nat)
    requires Hex.IsHex(s, n) && n > 0
    ensures IsField(s)
  {
  }

  lemma DecimalIsField(n: nat)
    ensures IsField(Decimal.Text(n))
  {
  }

  lemma FieldGlue(a: string, b: string)
    requires IsField(a) && IsField(b)
    ensures IsField(a + b)
  {
  }

  // -------------------------------------------------------------------- identities

  /** `NAMESPACE_RE`. */
  predicate IsNamespace(s: string) {
    || ("ed25519-" <= s && Hex.IsHex(s[|"ed25519-"|..], 32))
    || ("0x" <= s && Hex.IsHex(s[|"0x"|..], 20))
  }

  predicate NameStart(c: char) {
    'a' <= c <= 'z' || '0' <= c <= '9'
  }

  predicate NameChar(c: char) {
    NameStart(c) || c == '.' || c == '_' || c == '-'
  }

  /** `NAME_RE` with its limit of 100. */
  predicate IsName(s: string) {
    0 < |s| <= 100 && NameStart(s[0]) && forall i | 0 <= i < |s| :: NameChar(s[i])
  }

  /** `identity_ok(identity)`: `namespace/name`, or a bare name. */
  predicate IdentityOk(s: string) {
    && Utf8.Length(s) <= 173
    && match Cut(s, '/') {
         case Some((namespace, name)) => IsNamespace(namespace) && IsName(name)
         case None => IsName(s)
       }
  }

  lemma NamespaceIsField(s: string)
    requires IsNamespace(s)
    ensures IsField(s) && !Has(s, '/') && 42 <= |s| <= 72
  {
    var prefix := if "ed25519-" <= s then "ed25519-" else "0x";
    assert forall i | |prefix| <= i < |s| :: s[i] == s[|prefix|..][i - |prefix|];
    assert forall i | 0 <= i < |prefix| :: s[i] == prefix[i];
    assert forall i | 0 <= i < |prefix| :: FieldChar(prefix[i]) && prefix[i] != '/';
  }

  lemma IdentityIsField(s: string)
    requires IdentityOk(s)
    ensures IsField(s)
  {
    match Cut(s, '/')
    case Some((namespace, name)) =>
      CutIsExact(s, '/', namespace, name);
      NamespaceIsField(namespace);
    case None =>
  }

  /** The length test of `identity_ok` never refuses on its own. */
  lemma IdentityLengthIsImplied(namespace: string, name: string)
    requires IsNamespace(namespace) && IsName(name)
    ensures IdentityOk(namespace + "/" + name) && IdentityOk(name)
  {
    NamespaceIsField(namespace);
    CutIsExact(namespace + "/" + name, '/', namespace, name);
    CutIsExact(name, '/', "", "");
    Utf8.AsciiLength(namespace + "/" + name);
    Utf8.AsciiLength(name);
    assert !Has(name, '/');
  }

  // --------------------------------------------------------------------- ref names

  predicate RefChar(c: char) {
    'a' <= c <= 'z' || 'A' <= c <= 'Z' || '0' <= c <= '9' || c == '.' || c == '_' || c == '-'
  }

  predicate EndsWith(s: string, suffix: string) {
    |suffix| <= |s| && s[|s| - |suffix|..] == suffix
  }

  predicate IsSegment(s: string) {
    && s != "" && s[0] != '.' && !EndsWith(s, ".lock")
    && forall i | 0 <= i < |s| :: RefChar(s[i])
  }

  /** `ref_name_ok(name)` without a length bound. */
  predicate RefNameOk(name: string) {
    && name != "" && name[0] != '/'
    && var segments := Split(name, '/');
       && (forall i | 0 <= i < |segments| :: IsSegment(segments[i]))
       && segments[|segments| - 1] != "HEAD"
  }

  /** A ref name holds nothing but ref characters and slashes. */
  lemma RefNameChars(name: string)
    requires RefNameOk(name)
    ensures forall i | 0 <= i < |name| :: RefChar(name[i]) || name[i] == '/'
    ensures IsField(name)
  {
    var allowed := (c: char) => RefChar(c) || c == '/';
    JoinOfSplit(name, '/');
    JoinOnly(Split(name, '/'), '/', allowed);
    forall i | 0 <= i < |name|
      ensures RefChar(name[i]) || name[i] == '/'
    {
      assert allowed(name[i]);
    }
  }

  // ----------------------------------------------------------------------- origins

  predicate Ipv6Char(c: char) {
    Hex.IsHexDigit(c) || 'A' <= c <= 'F' || c == ':' || c == '.'
  }

  /** `ipaddress.IPv6Address(text)` accepts. The parser is a parameter; all that is used
      of it is that an address without a zone is hex digits, colons and dots. */
  type Ipv6Rule = f: string -> bool | forall t :: f(t) && !Has(t, '%') ==> Only(t, c => Ipv6Char(c))
    witness (t => false)

  predicate HostChar(c: char) {
    'a' <= c <= 'z' || '0' <= c <= '9' || c == '.' || c == '-'
  }

  /** `port is not None` and its checks. */
  predicate PortOk(port: string, standard: string) {
    Decimal.IsCanonical(port) && 1 <= Decimal.Value(port) <= 65535 && port != standard
  }

  predicate HostPortOk(rest: string, standard: string) {
    match Cut(rest, ':')
    case Some((host, port)) => HostOk(host) && PortOk(port, standard)
    case None => HostOk(rest)
  }

  predicate HostOk(host: string) {
    host != "" && host[|host| - 1] != '.' && forall i | 0 <= i < |host| :: HostChar(host[i])
  }

  predicate BracketedOk(ipv6: Ipv6Rule, rest: string, standard: string)
    requires rest != "" && rest[0] == '['
  {
    match Cut(rest[1..], ']')
    case None => false
    case Some((address, tail)) =>
      && ipv6(address) && !Has(address, '%')
      && (tail == "" || (tail[0] == ':' && PortOk(tail[1..], standard)))
  }

  predicate RestOk(ipv6: Ipv6Rule, rest: string, standard: string) {
    && rest != ""
    && (forall i | 0 <= i < |rest| :: !('A' <= rest[i] <= 'Z') && rest[i] !in "/?#@\\")
    && if rest[0] == '[' then BracketedOk(ipv6, rest, standard) else HostPortOk(rest, standard)
  }

  /** `origin_ok(origin)`. */
  predicate OriginOk(ipv6: Ipv6Rule, origin: string) {
    && |origin| <= 512
    && (forall i | 0 <= i < |origin| :: FieldChar(origin[i]))
    && if "https://" <= origin then RestOk(ipv6, origin[|"https://"|..], "443")
       else "http://" <= origin && RestOk(ipv6, origin[|"http://"|..], "80")
  }

  /** A character an origin may hold: no list separator and no wildcard. */
  predicate OriginChar(c: char) {
    FieldChar(c) && c != ',' && c != '*'
  }

  lemma PortChars(port: string, standard: string)
    requires PortOk(port, standard)
    ensures Only(port, c => OriginChar(c))
  {
  }

  lemma GlueOnly(a: string, c: char, b: string, allowed: char -> bool)
    requires Only(a, allowed) && allowed(c) && Only(b, allowed)
    ensures Only(a + [c] + b, allowed)
  {
  }

  lemma Ipv6Chars(address: string)
    requires Only(address, c => Ipv6Char(c))
    ensures Only(address, c => OriginChar(c))
  {
    var allowed := (c: char) => Ipv6Char(c);
    assert forall i | 0 <= i < |address| :: allowed(address[i]);
  }

  lemma BracketedChars(ipv6: Ipv6Rule, rest: string, standard: string)
    requires rest != "" && rest[0] == '[' && BracketedOk(ipv6, rest, standard)
    ensures Only(rest, c => OriginChar(c))
  {
    var allowed := (c: char) => OriginChar(c);
    var (address, tail) := Cut(rest[1..], ']').value;
    CutIsExact(rest[1..], ']', address, tail);
    hide Cut, PortOk, Only;
    assert Only(address, allowed) by { Ipv6Chars(address); }
    if tail != "" {
      PortChars(tail[1..], standard);
      assert tail == "" + [':'] + tail[1..];
      GlueOnly("", ':', tail[1..], allowed);
    }
    GlueOnly(address, ']', tail, allowed);
    assert rest == "" + ['['] + rest[1..];
    GlueOnly("", '[', rest[1..], allowed);
  }

  lemma HostPortChars(rest: string, standard: string)
    requires HostPortOk(rest, standard)
    ensures Only(rest, c => OriginChar(c))
  {
    match Cut(rest, ':')
    case Some((host, port)) =>
      CutIsExact(rest, ':', host, port);
      PortChars(port, standard);
      GlueOnly(host, ':', port, c => OriginChar(c));
    case None =>
  }

  lemma RestChars(ipv6: Ipv6Rule, rest: string, standard: string)
    requires RestOk(ipv6, rest, standard)
    ensures Only(rest, c => OriginChar(c))
  {
    hide BracketedOk, HostPortOk;
    if rest[0] == '[' {
      BracketedChars(ipv6, rest, standard);
    } else {
      HostPortChars(rest, standard);
    }
  }

  /** There are origins, whatever the IPv6 parser says. */
  lemma SomeOrigin(ipv6: Ipv6Rule)
    ensures OriginOk(ipv6, "https://a")
  {
    assert "https://a"[|"https://"|..] == "a";
    CutIsExact("a", ':', "", "");
  }

  function Zeros(n: nat): (s: string)
    ensures |s| == n && Hex.AllHex(s)
  {
    seq(n, _ => '0')
  }

  lemma SchemeChars()
    ensures Only("https://", c => OriginChar(c)) && Only("http://", c => OriginChar(c))
  {
  }

  lemma OnlyOriginChars(scheme: string, rest: string)
    requires Only(scheme, c => OriginChar(c)) && Only(rest, c => OriginChar(c)) && scheme != ""
    ensures IsField(scheme + rest) && !Has(scheme + rest, ',') && !Has(scheme + rest, '*')
  {
    var s := scheme + rest;
    assert forall i | 0 <= i < |s| :: OriginChar(s[i]);
  }

  /** An origin is one field: no comma joins two, and none is a wildcard. */
  lemma OriginIsField(ipv6: Ipv6Rule, origin: string)
    requires OriginOk(ipv6, origin)
    ensures IsField(origin) && !Has(origin, ',') && !Has(origin, '*')
  {
    hide RestOk, OriginChar, Only, IsField, Has;
    var secure := "https://" <= origin;
    var scheme := if secure then "https://" else "http://";
    var rest := origin[|scheme|..];
    RestChars(ipv6, rest, if secure then "443" else "80");
    SchemeChars();
    OnlyOriginChars(scheme, rest);
    assert origin == scheme + rest;
  }
}

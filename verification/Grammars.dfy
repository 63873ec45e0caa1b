/** What the name grammars accept, said by what a text is glued from and not by how it is
    cut: ref names, identities, origins and tree paths. */
module Grammars {
  import opened Option
  import opened Texts
  import opened Names
  import opened UrlToken
  import Decimal
  import Hex
  import Utf8

  // --------------------------------------------------------------------- ref names

  /** `[A-Za-z0-9._-]+`, not hidden and not a lock file. */
  predicate Segment(s: string) {
    && s != "" && s[0] != '.'
    && (|s| >= 5 ==> s[|s| - 5..] != ".lock")
    && forall i | 0 <= i < |s| ::
         'A' <= s[i] <= 'Z' || 'a' <= s[i] <= 'z' || '0' <= s[i] <= '9' || s[i] == '.' || s[i] == '_' || s[i] == '-'
  }

  predicate AllSegments(segments: seq<string>) {
    forall i | 0 <= i < |segments| :: Segment(segments[i])
  }

  lemma SegmentIs(s: string)
    ensures IsSegment(s) <==> Segment(s)
    ensures Segment(s) ==> !Has(s, '/')
  {
  }

  lemma FirstOfJoin(segments: seq<string>)
    requires segments != [] && Segment(segments[0])
    ensures Join(segments, '/') != "" && Join(segments, '/')[0] == segments[0][0] && segments[0][0] != '/'
  {
  }

  /** A ref name is segments joined by slashes, the last of them not HEAD. */
  lemma RefNameIs(name: string)
    ensures RefNameOk(name) <==>
              exists segments: seq<string> ::
                && segments != [] && AllSegments(segments) && segments[|segments| - 1] != "HEAD"
                && name == Join(segments, '/')
  {
    hide IsSegment, Segment, Join, Split, Has;
    if RefNameOk(name) {
      var segments := Split(name, '/');
      JoinOfSplit(name, '/');
      forall i | 0 <= i < |segments|
        ensures Segment(segments[i])
      {
        SegmentIs(segments[i]);
      }
      assert AllSegments(segments);
    }
    if segments: seq<string> :| segments != [] && AllSegments(segments) && segments[|segments| - 1] != "HEAD" &&
                                name == Join(segments, '/') {
      forall i | 0 <= i < |segments|
        ensures IsSegment(segments[i]) && !Has(segments[i], '/')
      {
        SegmentIs(segments[i]);
      }
      SplitOfJoin(segments, '/');
      FirstOfJoin(segments);
    }
  }

  // -------------------------------------------------------------------- identities

  predicate LowerHex(s: string, n: nat) {
    |s| == n && forall i | 0 <= i < |s| :: '0' <= s[i] <= '9' || 'a' <= s[i] <= 'f'
  }

  /** An Ed25519 key or an Ethereum address. */
  ghost predicate Namespace(s: string) {
    exists hex :: (s == "ed25519-" + hex && LowerHex(hex, 64)) || (s == "0x" + hex && LowerHex(hex, 40))
  }

  lemma NamespaceIs(s: string)
    ensures IsNamespace(s) <==> Namespace(s)
  {
    if IsNamespace(s) {
      if "ed25519-" <= s && Hex.IsHex(s[|"ed25519-"|..], 32) {
        var hex := s[|"ed25519-"|..];
        assert s == "ed25519-" + hex && LowerHex(hex, 64);
      } else {
        var hex := s[|"0x"|..];
        assert s == "0x" + hex && LowerHex(hex, 40);
      }
    }
    if hex :| (s == "ed25519-" + hex && LowerHex(hex, 64)) || (s == "0x" + hex && LowerHex(hex, 40)) {
      if s == "ed25519-" + hex && LowerHex(hex, 64) {
        assert s[|"ed25519-"|..] == hex;
      } else {
        assert s[|"0x"|..] == hex;
      }
    }
  }

  /** A repository name: up to a hundred characters, the first a letter or a digit. */
  predicate Name(s: string) {
    && 1 <= |s| <= 100
    && ('a' <= s[0] <= 'z' || '0' <= s[0] <= '9')
    && forall i | 0 <= i < |s| :: 'a' <= s[i] <= 'z' || '0' <= s[i] <= '9' || s[i] == '.' || s[i] == '_' || s[i] == '-'
  }

  lemma NameIs(s: string)
    ensures IsName(s) <==> Name(s)
    ensures Name(s) ==> !Has(s, '/')
  {
  }

  /** An identity is a name, or a namespace, a slash and a name. */
  lemma IdentityIs(s: string)
    ensures IdentityOk(s) <==>
              Name(s) || exists namespace, name :: Namespace(namespace) && Name(name) && s == namespace + "/" + name
  {
    hide IsNamespace, IsName, Namespace, Name, Cut, Has, Utf8.Length;
    if IdentityOk(s) {
      match Cut(s, '/')
      case None =>
        NameIs(s);
      case Some((namespace, name)) =>
        CutIsExact(s, '/', namespace, name);
        NamespaceIs(namespace);
        NameIs(name);
        assert s == namespace + "/" + name;
    }
    if Name(s) {
      NameIs(s);
      BareName(s);
    }
    if namespace, name :| Namespace(namespace) && Name(name) && s == namespace + "/" + name {
      NamespaceIs(namespace);
      NameIs(name);
      IdentityLengthIsImplied(namespace, name);
    }
  }

  lemma BareName(s: string)
    requires IsName(s) && !Has(s, '/')
    ensures IdentityOk(s)
  {
    CutIsExact(s, '/', "", "");
    Utf8.AsciiLength(s);
  }

  // ------------------------------------------------------------------------- paths

  predicate Entry(s: string) {
    s != "" && s != "." && s != ".." && !Has(s, '/')
  }

  predicate AllEntries(entries: seq<string>) {
    forall i | 0 <= i < |entries| :: Entry(entries[i])
  }

  /** No control character: below the space, or from DEL through the C1 range. */
  predicate Printable(path: string) {
    forall i | 0 <= i < |path| :: path[i] as int >= 32 && !(127 <= path[i] as int <= 159)
  }

  /** A tree path is empty, or entries joined by slashes, none of them empty or a dot step. */
  lemma PathIs(path: string)
    ensures PathOk(path) <==>
              && Utf8.Length(path) <= 1024 && Printable(path)
              && (path == "" || exists entries: seq<string> :: entries != [] && AllEntries(entries) && path == Join(entries, '/'))
  {
    hide Utf8.Length, Split, Join, Has;
    assert (forall i | 0 <= i < |path| :: !IsControl(path[i])) <==> Printable(path);
    if path != "" && PathOk(path) {
      var entries := Split(path, '/');
      JoinOfSplit(path, '/');
      forall i | 0 <= i < |entries|
        ensures Entry(entries[i])
      {
        assert entries[i] in entries;
      }
      assert AllEntries(entries);
    }
    if entries: seq<string> :| entries != [] && AllEntries(entries) && path == Join(entries, '/') {
      SplitOfJoin(entries, '/');
    }
  }

  // ----------------------------------------------------------------------- origins

  /** A port that is written out: 1 to 65535 and not the scheme's own. */
  ghost predicate Port(port: string, standard: nat) {
    exists n: nat :: port == Decimal.Text(n) && 1 <= n <= 65_535 && n != standard
  }

  lemma PortIs(port: string, standard: nat)
    ensures PortOk(port, Decimal.Text(standard)) <==> Port(port, standard)
  {
    hide Decimal.Text, Decimal.Value, Decimal.IsCanonical;
    if PortOk(port, Decimal.Text(standard)) {
      Decimal.TextOfValue(port);
    }
    if n: nat :| port == Decimal.Text(n) && 1 <= n <= 65_535 && n != standard {
      Decimal.ValueOfText(n);
      if Decimal.Text(n) == Decimal.Text(standard) {
        Decimal.TextInjective(n, standard);
      }
    }
  }

  /** A host name: lower-case letters, digits, dots and minuses, not ending in a dot. */
  predicate Host(host: string) {
    && host != "" && host[|host| - 1] != '.'
    && forall i | 0 <= i < |host| :: 'a' <= host[i] <= 'z' || '0' <= host[i] <= '9' || host[i] == '.' || host[i] == '-'
  }

  /** An IPv6 address without a zone, nothing in it upper case. */
  predicate Address(ipv6: Ipv6Rule, address: string) {
    && ipv6(address) && !Has(address, '%') && !Has(address, ']')
    && forall i | 0 <= i < |address| :: !('A' <= address[i] <= 'Z')
  }

  /** What follows the scheme: a host or a bracketed address, and perhaps a port. */
  ghost predicate Authority(ipv6: Ipv6Rule, rest: string, standard: nat) {
    exists host: string, port: string, address: string :: AuthorityOf(ipv6, rest, standard, host, port, address)
  }

  ghost predicate AuthorityOf(ipv6: Ipv6Rule, rest: string, standard: nat, host: string, port: string, address: string) {
    && (Host(host) || (host == "[" + address + "]" && Address(ipv6, address)))
    && (rest == host || (rest == host + ":" + port && Port(port, standard)))
  }

  lemma HostIs(host: string)
    ensures HostOk(host) <==> Host(host)
    ensures Host(host) ==> host != "" && !Has(host, ':') && host[0] != '[' && Plain(host)
  {
  }

  /** Nothing upper case and none of the characters that end an origin. */
  predicate Plain(s: string) {
    forall i | 0 <= i < |s| :: !('A' <= s[i] <= 'Z') && s[i] !in "/?#@\\"
  }

  lemma PortIsPlain(port: string, standard: string)
    requires PortOk(port, standard)
    ensures Plain(":" + port)
  {
  }

  lemma AddressIsPlain(ipv6: Ipv6Rule, address: string)
    requires Address(ipv6, address)
    ensures Plain("[" + address + "]")
  {
    assert Only(address, c => Ipv6Char(c));
    var allowed := (c: char) => Ipv6Char(c);
    assert forall i | 0 <= i < |address| :: allowed(address[i]);
  }

  lemma PlainGlue(a: string, b: string)
    ensures Plain(a + b) <==> Plain(a) && Plain(b)
  {
    assert forall i | 0 <= i < |a| :: (a + b)[i] == a[i];
    assert forall i | 0 <= i < |b| :: (a + b)[|a| + i] == b[i];
  }

  lemma BracketedToAuthority(ipv6: Ipv6Rule, rest: string, standard: nat)
    requires rest != "" && rest[0] == '[' && Plain(rest) && BracketedOk(ipv6, rest, Decimal.Text(standard))
    ensures Authority(ipv6, rest, standard)
  {
    hide Decimal.Text, PortOk, Port, Cut;
    var (address, tail) := Cut(rest[1..], ']').value;
    CutIsExact(rest[1..], ']', address, tail);
    var host := "[" + address + "]";
    assert rest == host + tail;
    PlainGlue(host, tail);
    assert forall i | 0 <= i < |address| :: address[i] == host[1 + i];
    assert Address(ipv6, address);
    if tail == "" {
      assert rest == host;
      assert AuthorityOf(ipv6, rest, standard, host, "", address);
    } else {
      PortIs(tail[1..], standard);
      assert tail == ":" + tail[1..];
      assert rest == host + ":" + tail[1..];
      assert AuthorityOf(ipv6, rest, standard, host, tail[1..], address);
    }
  }

  lemma HostPortToAuthority(ipv6: Ipv6Rule, rest: string, standard: nat)
    requires HostPortOk(rest, Decimal.Text(standard))
    ensures Authority(ipv6, rest, standard)
  {
    hide Decimal.Text, PortOk, Port, Cut, HostOk, Host;
    match Cut(rest, ':')
    case Some((host, port)) =>
      CutIsExact(rest, ':', host, port);
      HostIs(host);
      PortIs(port, standard);
      assert rest == host + ":" + port;
      assert AuthorityOf(ipv6, rest, standard, host, port, "");
    case None =>
      HostIs(rest);
      assert AuthorityOf(ipv6, rest, standard, rest, "", "");
  }

  lemma AddressToRest(ipv6: Ipv6Rule, rest: string, standard: nat, address: string, port: string)
    requires Address(ipv6, address)
    requires var host := "[" + address + "]"; rest == host || (rest == host + ":" + port && Port(port, standard))
    ensures RestOk(ipv6, rest, Decimal.Text(standard))
  {
    hide Decimal.Text, PortOk, Port, Cut;
    var host := "[" + address + "]";
    AddressIsPlain(ipv6, address);
    var tail := if rest == host then "" else ":" + port;
    assert rest == host + tail;
    assert rest[1..] == address + [']'] + tail;
    CutIsExact(rest[1..], ']', address, tail);
    PlainGlue(host, tail);
    if tail != "" {
      PortIs(port, standard);
      PortIsPlain(port, Decimal.Text(standard));
      assert tail[1..] == port;
    }
    assert Plain(rest);
  }

  lemma HostToRest(ipv6: Ipv6Rule, rest: string, standard: nat, host: string, port: string)
    requires Host(host) && (rest == host || (rest == host + ":" + port && Port(port, standard)))
    ensures RestOk(ipv6, rest, Decimal.Text(standard))
  {
    hide Decimal.Text, PortOk, Port, Cut, HostOk, Host;
    HostIs(host);
    if rest == host {
      CutIsExact(rest, ':', "", "");
    } else {
      assert rest == host + [':'] + port && rest == host + (":" + port);
      CutIsExact(rest, ':', host, port);
      PortIs(port, standard);
      PortIsPlain(port, Decimal.Text(standard));
      PlainGlue(host, ":" + port);
    }
    assert Plain(rest);
  }

  lemma RestIs(ipv6: Ipv6Rule, rest: string, standard: nat)
    ensures RestOk(ipv6, rest, Decimal.Text(standard)) <==> Authority(ipv6, rest, standard)
  {
    hide Decimal.Text, PortOk, Port, Cut, HostOk, Host, BracketedOk, HostPortOk, Address;
    if RestOk(ipv6, rest, Decimal.Text(standard)) {
      if rest[0] == '[' {
        BracketedToAuthority(ipv6, rest, standard);
      } else {
        HostPortToAuthority(ipv6, rest, standard);
      }
    }
    if host: string, port: string, address: string :| AuthorityOf(ipv6, rest, standard, host, port, address) {
      if Host(host) {
        HostToRest(ipv6, rest, standard, host, port);
      } else {
        AddressToRest(ipv6, rest, standard, address, port);
      }
    }
  }

  lemma StandardPorts()
    ensures Decimal.Text(443) == "443" && Decimal.Text(80) == "80"
  {
    assert Decimal.Text(4) == "4" && Decimal.Text(44) == "44" && Decimal.Text(8) == "8";
  }

  /** An origin: one of the two schemes, a host or an address, and a port only when it is
      not the scheme's own; printable, and at most 512 characters. */
  lemma OriginIs(ipv6: Ipv6Rule, origin: string)
    ensures OriginOk(ipv6, origin) <==>
              && |origin| <= 512 && (forall i | 0 <= i < |origin| :: 33 <= origin[i] as int <= 126)
              && exists rest :: (origin == "https://" + rest && Authority(ipv6, rest, 443)) ||
                                (origin == "http://" + rest && Authority(ipv6, rest, 80))
  {
    hide RestOk, Authority, Decimal.Text;
    StandardPorts();
    if OriginOk(ipv6, origin) {
      if "https://" <= origin {
        var rest := origin[|"https://"|..];
        RestIs(ipv6, rest, 443);
        assert origin == "https://" + rest;
      } else {
        var rest := origin[|"http://"|..];
        RestIs(ipv6, rest, 80);
        assert origin == "http://" + rest;
      }
    }
    if rest :| (origin == "https://" + rest && Authority(ipv6, rest, 443)) ||
               (origin == "http://" + rest && Authority(ipv6, rest, 80)) {
      if origin == "https://" + rest && Authority(ipv6, rest, 443) {
        RestIs(ipv6, rest, 443);
        assert origin[|"https://"|..] == rest;
      } else {
        RestIs(ipv6, rest, 80);
        assert origin[|"http://"|..] == rest && origin[4] == ':';
      }
    }
  }
}

// Peer endpoint identity: reading host:port and grpc(s)://host:port texts into a canonical identity,
// as the Go and the TypeScript bridge each do it. Hosts and ports are read over letters, digits,
// dot, hyphen and underscore; any other character is refused.
module EndpointIdentity {
  import opened Prelude

  datatype IdentityError = EmptyEndpoint | UnsupportedScheme | MalformedEndpoint

  /** The pieces of an endpoint, its scheme filled in, its host as written. */
  datatype Parts = Parts(scheme: string, host: string, port: string)

  /******* Characters *******/

  predicate IsDigit(c: char) {
    '0' <= c <= '9'
  }

  predicate IsSpace(c: char) {
    c == ' ' || '\t' <= c <= '\r'
  }

  predicate IsNameChar(c: char) {
    IsDigit(c) || 'a' <= c <= 'z' || 'A' <= c <= 'Z' || c == '.' || c == '-' || c == '_'
  }

  predicate IsName(s: string) {
    s != "" && forall c | c in s :: IsNameChar(c)
  }

  predicate AllDigits(s: string) {
    s != "" && forall c | c in s :: IsDigit(c)
  }

  function LowerChar(c: char): char {
    if 'A' <= c <= 'Z' then 'a' + (c - 'A') else c
  }

  function Lower(s: string): (r: string)
    ensures |r| == |s|
    ensures forall i | 0 <= i < |s| :: r[i] == LowerChar(s[i])
  {
    if s == "" then "" else [LowerChar(s[0])] + Lower(s[1..])
  }

  function TrimLeft(s: string): string {
    if s != "" && IsSpace(s[0]) then TrimLeft(s[1..]) else s
  }

  function TrimRight(s: string): string {
    if s != "" && IsSpace(s[|s| - 1]) then TrimRight(s[..|s| - 1]) else s
  }

  function Trim(s: string): string {
    TrimRight(TrimLeft(s))
  }

  /** The position of the first `c`, or the length when there is none. */
  function IndexOf(s: string, c: char): (i: nat)
    ensures i <= |s|
    ensures i < |s| ==> s[i] == c
    ensures forall j | 0 <= j < i :: s[j] != c
  {
    if s == "" || s[0] == c then 0 else 1 + IndexOf(s[1..], c)
  }

  predicate ContainsSchemeMark(s: string) {
    s != "" && ("://" <= s || ContainsSchemeMark(s[1..]))
  }

  /** Without leading zeros; "0" for zero. */
  function StripZeros(port: string): string {
    if |port| > 1 && port[0] == '0' then StripZeros(port[1..]) else port
  }

  function DecimalValue(port: string): nat
    requires forall c | c in port :: IsDigit(c)
  {
    if port == "" then 0
    else
      var last := port[|port| - 1];
      assert last in port && IsDigit(last);
      assert forall c | c in port[..|port| - 1] :: c in port;
      DecimalValue(port[..|port| - 1]) * 10 + (last - '0') as nat
  }

  function Decimal(n: nat): string {
    if n < 10 then ['0' + n as char] else Decimal(n / 10) + ['0' + (n % 10) as char]
  }

  /** The digits of a number denote that number, and start with a zero only for zero. */
  lemma {:induction false} DecimalReads(n: nat)
    ensures AllDigits(Decimal(n)) && DecimalValue(Decimal(n)) == n
    ensures n > 0 ==> Decimal(n)[0] != '0'
  {
    var text := Decimal(n);
    if n < 10 {
      assert text[..0] == "" && DecimalValue("") == 0;
    } else {
      DecimalReads(n / 10);
      assert text[..|text| - 1] == Decimal(n / 10);
      assert forall c | c in text :: c in Decimal(n / 10) || c == text[|text| - 1];
    }
  }

  /** The ten digits, as they are written. */
  lemma DigitsAsWritten()
    ensures Decimal(0) == "0" && Decimal(1) == "1" && Decimal(2) == "2" && Decimal(3) == "3" && Decimal(4) == "4"
    ensures Decimal(5) == "5" && Decimal(6) == "6" && Decimal(7) == "7" && Decimal(8) == "8" && Decimal(9) == "9"
  {
  }

  predicate PortInRange(port: string) {
    AllDigits(port) && DecimalValue(port) <= 65535
  }

  /******* Parsing *******/

  function SplitHostPort(text: string): Option<(string, string)> {
    var i := IndexOf(text, ':');
    if i < |text| && IsName(text[..i]) && IsName(text[i + 1..]) then Some((text[..i], text[i + 1..])) else None
  }

  /** The scheme an endpoint names and the text after it; None when it names none. */
  function ExplicitScheme(value: string): Option<(string, string)> {
    var lower := Lower(value);
    if "grpc://" <= lower then Some(("grpc", value[7..]))
    else if "grpcs://" <= lower then Some(("grpcs", value[8..]))
    else None
  }

  function DefaultScheme(tls: bool): string {
    if tls then "grpcs" else "grpc"
  }

  /** Go: an explicit-scheme endpoint goes through the URL parser, which wants a numeric port; a plain one does not. */
  function GoParts(raw: string, tls: bool): Result<Parts, IdentityError> {
    var value := Trim(raw);
    if value == "" then Err(EmptyEndpoint)
    else
      match ExplicitScheme(value)
      case Some((scheme, authority)) =>
        (match SplitHostPort(authority)
         case None => Err(MalformedEndpoint)
         case Some((host, port)) => if AllDigits(port) then Ok(Parts(scheme, host, port)) else Err(MalformedEndpoint))
      case None =>
        if ContainsSchemeMark(value) then Err(UnsupportedScheme)
        else
          match SplitHostPort(value)
          case None => Err(MalformedEndpoint)
          case Some((host, port)) => Ok(Parts(DefaultScheme(tls), host, port))
  }

  /** The URL parser of TypeScript reads a final slash as an empty path, which the bridge accepts. */
  function DropSlash(authority: string): string {
    if authority != "" && authority[|authority| - 1] == '/' then authority[..|authority| - 1] else authority
  }

  /** TypeScript: the URL parser also bounds an explicit-scheme port by 65535 and drops its leading zeros. */
  function TsParts(raw: string, tls: bool): Result<Parts, IdentityError> {
    var value := Trim(raw);
    if value == "" then Err(EmptyEndpoint)
    else
      match ExplicitScheme(value)
      case Some((scheme, authority)) =>
        (match SplitHostPort(DropSlash(authority))
         case None => Err(MalformedEndpoint)
         case Some((host, port)) => if PortInRange(port) then Ok(Parts(scheme, host, StripZeros(port))) else Err(MalformedEndpoint))
      case None =>
        if ContainsSchemeMark(value) then Err(UnsupportedScheme)
        else
          match SplitHostPort(value)
          case None => Err(MalformedEndpoint)
          case Some((host, port)) => if AllDigits(port) then Ok(Parts(DefaultScheme(tls), host, port)) else Err(MalformedEndpoint)
  }

  function Canonical(p: Parts): string {
    p.scheme + "://" + Lower(p.host) + ":" + p.port
  }

  function Printed(parts: Result<Parts, IdentityError>): Result<string, IdentityError> {
    match parts
    case Ok(p) => Ok(Canonical(p))
    case Err(e) => Err(e)
  }

  function GoNormalize(raw: string, tls: bool): Result<string, IdentityError> {
    Printed(GoParts(raw, tls))
  }

  function TsNormalize(raw: string, tls: bool): Result<string, IdentityError> {
    Printed(TsParts(raw, tls))
  }

  /******* When two endpoints are the same peer *******/

  predicate WellFormed(p: Parts) {
    (p.scheme == "grpc" || p.scheme == "grpcs") && IsName(p.host) && IsName(p.port)
  }

  predicate SameParts(p: Parts, q: Parts) {
    p.scheme == q.scheme && Lower(p.host) == Lower(q.host) && p.port == q.port
  }

  lemma {:induction false} StripZerosIsSuffix(port: string)
    requires AllDigits(port)
    ensures AllDigits(StripZeros(port))
  {
    if |port| > 1 && port[0] == '0' {
      StripZerosIsSuffix(port[1..]);
    }
  }

  lemma PartsWellFormed(raw: string, tls: bool)
    ensures GoParts(raw, tls).Ok? ==> WellFormed(GoParts(raw, tls).value)
    ensures TsParts(raw, tls).Ok? ==> WellFormed(TsParts(raw, tls).value) && AllDigits(TsParts(raw, tls).value.port)
  {
    var value := Trim(raw);
    if value != "" && ExplicitScheme(value).Some? {
      var split := SplitHostPort(DropSlash(ExplicitScheme(value).value.1));
      if split.Some? && AllDigits(split.value.1) {
        StripZerosIsSuffix(split.value.1);
      }
    }
  }

  /** A name followed by a colon can be read back from the front of a text. */
  lemma ColonSplit(a: string, rest: string)
    requires forall c | c in a :: c != ':'
    ensures IndexOf(a + ":" + rest, ':') == |a|
    ensures (a + ":" + rest)[..|a|] == a && (a + ":" + rest)[|a| + 1..] == rest
  {
    var text := a + ":" + rest;
    assert text[|a|] == ':';
    assert forall j | 0 <= j < |a| :: text[j] == a[j] && a[j] in a;
  }

  lemma ColonCancel(a: string, x: string, b: string, y: string)
    requires forall c | c in a :: c != ':'
    requires forall c | c in b :: c != ':'
    requires a + ":" + x == b + ":" + y
    ensures a == b && x == y
  {
    ColonSplit(a, x);
    ColonSplit(b, y);
  }

  lemma LowerName(s: string)
    requires IsName(s)
    ensures IsName(Lower(s)) && Lower(Lower(s)) == Lower(s)
  {
    forall c | c in Lower(s)
      ensures IsNameChar(c)
    {
      var i :| 0 <= i < |s| && Lower(s)[i] == c;
      assert s[i] in s;
    }
  }

  predicate NoColon(s: string) {
    forall c | c in s :: c != ':'
  }

  lemma PrintedApart(scheme: string, host: string, port: string, scheme': string, host': string, port': string)
    requires NoColon(scheme) && NoColon(host) && NoColon(scheme') && NoColon(host')
    requires scheme + "://" + host + ":" + port == scheme' + "://" + host' + ":" + port'
    ensures scheme == scheme' && host == host' && port == port'
  {
    var s, t := host + ":" + port, host' + ":" + port';
    assert scheme + ":" + ("//" + s) == scheme + "://" + host + ":" + port;
    assert scheme' + ":" + ("//" + t) == scheme' + "://" + host' + ":" + port';
    ColonCancel(scheme, "//" + s, scheme', "//" + t);
    assert s == ("//" + s)[2..];
    assert t == ("//" + t)[2..];
    ColonCancel(host, port, host', port');
  }

  lemma NameHasNoColon(s: string)
    requires IsName(s)
    ensures NoColon(s)
  {
  }

  lemma CanonicalInjective(p: Parts, q: Parts)
    requires WellFormed(p) && WellFormed(q)
    ensures Canonical(p) == Canonical(q) <==> SameParts(p, q)
  {
    LowerName(p.host);
    LowerName(q.host);
    NameHasNoColon(Lower(p.host));
    NameHasNoColon(Lower(q.host));
    if Canonical(p) == Canonical(q) {
      assert NoColon("grpc") && NoColon("grpcs");
      PrintedApart(p.scheme, Lower(p.host), p.port, q.scheme, Lower(q.host), q.port);
    }
  }

  /** Two inputs get one identity exactly when filled-in schemes and ports are equal and hosts are equal ignoring case. */
  lemma GoSameIdentityExactly(raw: string, tls: bool, raw': string, tls': bool)
    requires GoParts(raw, tls).Ok? && GoParts(raw', tls').Ok?
    ensures GoNormalize(raw, tls) == GoNormalize(raw', tls') <==> SameParts(GoParts(raw, tls).value, GoParts(raw', tls').value)
  {
    PartsWellFormed(raw, tls);
    PartsWellFormed(raw', tls');
    CanonicalInjective(GoParts(raw, tls).value, GoParts(raw', tls').value);
  }

  lemma TsSameIdentityExactly(raw: string, tls: bool, raw': string, tls': bool)
    requires TsParts(raw, tls).Ok? && TsParts(raw', tls').Ok?
    ensures TsNormalize(raw, tls) == TsNormalize(raw', tls') <==> SameParts(TsParts(raw, tls).value, TsParts(raw', tls').value)
  {
    PartsWellFormed(raw, tls);
    PartsWellFormed(raw', tls');
    CanonicalInjective(TsParts(raw, tls).value, TsParts(raw', tls').value);
  }

  /******* Normalizing twice *******/

  /** How a canonical identity reads: untrimmed, with its scheme explicit and its host and port in place. */
  lemma CanonicalReads(p: Parts)
    requires WellFormed(p)
    ensures var c := Canonical(p);
            && Trim(c) == c && c != ""
            && ExplicitScheme(c) == Some((p.scheme, Lower(p.host) + ":" + p.port))
            && SplitHostPort(Lower(p.host) + ":" + p.port) == Some((Lower(p.host), p.port))
  {
    LowerName(p.host);
    AuthorityReads(Lower(p.host), p.port);
    SchemeReads(p.scheme, Lower(p.host) + ":" + p.port);
    PrintedAsAuthority(p.scheme, Lower(p.host), p.port);
  }

  lemma PrintedAsAuthority(scheme: string, host: string, port: string)
    ensures scheme + "://" + host + ":" + port == scheme + "://" + (host + ":" + port)
  {
  }

  lemma AuthorityReads(host: string, port: string)
    requires IsName(host) && IsName(port)
    ensures var authority := host + ":" + port;
            !IsSpace(authority[|authority| - 1]) && SplitHostPort(authority) == Some((host, port))
  {
    NameHasNoColon(host);
    ColonSplit(host, port);
    assert port[|port| - 1] in port;
  }

  lemma LowerPrefix(mark: string, rest: string)
    requires Lower(mark) == mark
    ensures mark <= Lower(mark + rest) && (mark + rest)[|mark|..] == rest
  {
    assert forall i | 0 <= i < |mark| :: Lower(mark + rest)[i] == Lower(mark)[i];
  }

  lemma SchemeReads(scheme: string, authority: string)
    requires scheme == "grpc" || scheme == "grpcs"
    requires authority != "" && !IsSpace(authority[|authority| - 1])
    ensures var c := scheme + "://" + authority; Trim(c) == c && ExplicitScheme(c) == Some((scheme, authority))
  {
    hide Trim, Lower, ExplicitScheme;
    var mark := scheme + "://";
    var c := mark + authority;
    assert c[0] == 'g' && c[|c| - 1] == authority[|authority| - 1];
    TrimKeeps(c);
    MarkIsLower(scheme);
    LowerPrefix(mark, authority);
    ExplicitSchemeOf(c, scheme, authority);
  }

  lemma TrimKeeps(c: string)
    requires c != "" && !IsSpace(c[0]) && !IsSpace(c[|c| - 1])
    ensures Trim(c) == c
  {
  }

  lemma MarkIsLower(scheme: string)
    requires scheme == "grpc" || scheme == "grpcs"
    ensures Lower(scheme + "://") == scheme + "://"
  {
    var mark := scheme + "://";
    assert forall i | 0 <= i < |mark| :: Lower(mark)[i] == mark[i];
  }

  lemma ExplicitSchemeOf(c: string, scheme: string, authority: string)
    requires scheme == "grpc" || scheme == "grpcs"
    requires scheme + "://" <= Lower(c) && c[|scheme| + 3..] == authority
    ensures ExplicitScheme(c) == Some((scheme, authority))
  {
    hide Lower;
    if scheme == "grpcs" {
      assert Lower(c)[4] == (scheme + "://")[4];
    }
  }

  /** How an explicit-scheme text that is already trimmed goes through the two parsers. */
  lemma UrlParts(c: string, scheme: string, authority: string, host: string, port: string, tls: bool)
    requires Trim(c) == c != "" && ExplicitScheme(c) == Some((scheme, authority)) && SplitHostPort(authority) == Some((host, port))
    ensures GoParts(c, tls) == if AllDigits(port) then Ok(Parts(scheme, host, port)) else Err(MalformedEndpoint)
    ensures TsParts(c, tls) == if PortInRange(port) then Ok(Parts(scheme, host, StripZeros(port))) else Err(MalformedEndpoint)
  {
    hide Trim, ExplicitScheme, AllDigits, PortInRange, StripZeros;
    assert port == authority[|authority| - |port|..] && port[|port| - 1] in port;
    hide SplitHostPort;
    assert DropSlash(authority) == authority;
  }

  lemma GoReadsCanonical(p: Parts, tls: bool)
    requires WellFormed(p)
    ensures GoNormalize(Canonical(p), tls) == if AllDigits(p.port) then Ok(Canonical(p)) else Err(MalformedEndpoint)
  {
    hide GoParts, AllDigits, Trim, ExplicitScheme, SplitHostPort;
    CanonicalReads(p);
    UrlParts(Canonical(p), p.scheme, Lower(p.host) + ":" + p.port, Lower(p.host), p.port, tls);
    LowerName(p.host);
  }

  lemma TsReadsCanonical(p: Parts, tls: bool)
    requires WellFormed(p)
    ensures TsNormalize(Canonical(p), tls)
         == if PortInRange(p.port) then Ok(Canonical(p.(port := StripZeros(p.port)))) else Err(MalformedEndpoint)
  {
    hide TsParts, PortInRange, StripZeros, Trim, ExplicitScheme, SplitHostPort;
    CanonicalReads(p);
    UrlParts(Canonical(p), p.scheme, Lower(p.host) + ":" + p.port, Lower(p.host), p.port, tls);
    LowerName(p.host);
  }

  /** Go: a canonical identity normalizes to itself, under either TLS flag, exactly when its port is numeric; otherwise it is refused. */
  lemma GoIdempotentExactly(raw: string, tls: bool, tls': bool)
    requires GoParts(raw, tls).Ok?
    ensures var c := GoNormalize(raw, tls).value;
            GoNormalize(c, tls') == if AllDigits(GoParts(raw, tls).value.port) then Ok(c) else Err(MalformedEndpoint)
  {
    PartsWellFormed(raw, tls);
    GoReadsCanonical(GoParts(raw, tls).value, tls');
  }

  /** A port as a URL prints it. */
  predicate PlainPort(port: string) {
    PortInRange(port) && StripZeros(port) == port
  }

  lemma {:induction false} ZeroPrefixValue(port: string)
    requires AllDigits(port) && |port| > 1 && port[0] == '0'
    ensures DecimalValue(port[1..]) == DecimalValue(port)
  {
    assert forall c | c in port[1..] :: c in port;
    var n := |port| - 1;
    assert port[1..][..n - 1] == port[..n][1..];
    assert forall c | c in port[..n] :: c in port;
    if n > 1 {
      ZeroPrefixValue(port[..n]);
    } else {
      assert port[..1][..0] == "" && port[1..][..0] == "";
    }
  }

  /** Dropping leading zeros keeps the value, and once is enough. */
  lemma {:induction false} StrippedIsPlain(port: string)
    requires PortInRange(port)
    ensures PlainPort(StripZeros(port))
    ensures AllDigits(StripZeros(port)) && DecimalValue(StripZeros(port)) == DecimalValue(port)
  {
    if |port| > 1 && port[0] == '0' {
      ZeroPrefixValue(port);
      assert forall c | c in port[1..] :: c in port;
      StrippedIsPlain(port[1..]);
    }
  }

  /** TypeScript: a canonical identity normalizes to itself exactly when its port is at most 65535 and has no leading zeros. */
  lemma TsIdempotentExactly(raw: string, tls: bool, tls': bool)
    requires TsParts(raw, tls).Ok?
    ensures var p := TsParts(raw, tls).value;
            && TsNormalize(Canonical(p), tls') ==
                 (if PortInRange(p.port) then Ok(Canonical(p.(port := StripZeros(p.port)))) else Err(MalformedEndpoint))
            && (TsNormalize(Canonical(p), tls') == Ok(Canonical(p)) <==> PlainPort(p.port))
  {
    PartsWellFormed(raw, tls);
    var p := TsParts(raw, tls).value;
    TsReadsCanonical(p, tls');
    StripZerosIsSuffix(p.port);
    CanonicalInjective(p, p.(port := StripZeros(p.port)));
  }

  /** TypeScript: the second normalization may still drop leading zeros, but a third one changes nothing. */
  lemma TwiceIsStable(raw: string, tls: bool, tls': bool, tls'': bool)
    requires TsParts(raw, tls).Ok? && TsNormalize(Canonical(TsParts(raw, tls).value), tls').Ok?
    ensures var twice := TsNormalize(Canonical(TsParts(raw, tls).value), tls').value; TsNormalize(twice, tls'') == Ok(twice)
  {
    var p := TsParts(raw, tls).value;
    TsIdempotentExactly(raw, tls, tls');
    PartsWellFormed(raw, tls);
    StripZerosIsSuffix(p.port);
    StrippedIsPlain(p.port);
    TsReadsCanonical(p.(port := StripZeros(p.port)), tls'');
  }

  lemma {:induction false} NoSchemeMark(s: string)
    requires forall c | c in s :: c != '/'
    ensures !ContainsSchemeMark(s)
  {
    if s != "" {
      assert |s| > 1 ==> s[1] in s;
      assert forall c | c in s[1..] :: c in s;
      NoSchemeMark(s[1..]);
    }
  }

  lemma GoPlainReads(host: string, port: string, tls: bool)
    requires IsName(host) && IsName(port)
    ensures GoParts(host + ":" + port, tls) == Ok(Parts(DefaultScheme(tls), host, port))
  {
    hide SplitHostPort, IsName, ContainsSchemeMark, Trim, ExplicitScheme, DefaultScheme;
    PlainText(host, port);
    AuthorityReads(host, port);
  }

  /** A plain endpoint names no scheme, even when its host is called grpc. */
  lemma PlainText(host: string, port: string)
    requires IsName(host) && IsName(port)
    ensures var raw := host + ":" + port; Trim(raw) == raw != "" && ExplicitScheme(raw) == None && !ContainsSchemeMark(raw)
  {
    var raw := host + ":" + port;
    assert raw[0] == host[0] && host[0] in host && raw[|raw| - 1] == port[|port| - 1] && port[|port| - 1] in port;
    TrimKeeps(raw);
    assert forall c | c in raw :: c in host || c in port || c == ':';
    NoSchemeMark(raw);
    NoScheme(raw);
  }

  lemma NoScheme(value: string)
    requires forall c | c in value :: c != '/'
    ensures ExplicitScheme(value) == None
  {
    var lower := Lower(value);
    forall i | 0 <= i < |lower|
      ensures lower[i] != '/'
    {
      assert value[i] in value;
    }
    assert "grpc://"[5] == '/' && "grpcs://"[6] == '/';
  }

  /** An endpoint whose identity is refused when it is read again: a port that is a name. */
  lemma GoNamedPortIsRefused()
    ensures var id := Canonical(Parts("grpc", "h", "http"));
            && GoNormalize("h" + ":" + "http", false) == Ok(id)
            && GoNormalize(id, false) == GoNormalize(id, true) == Err(MalformedEndpoint)
  {
    hide GoParts;
    GoPlainReads("h", "http", false);
    assert "http"[0] in "http" && !IsDigit("http"[0]);
    GoIdempotentExactly("h" + ":" + "http", false, false);
    GoIdempotentExactly("h" + ":" + "http", false, true);
  }

  /** An endpoint whose identity changes when it is normalized again: a leading zero in a plain host:port. */
  lemma TsLeadingZeroMoves()
    ensures var once, twice := Parts("grpc", "h", "07051"), Parts("grpc", "h", "7051");
            && TsNormalize("h" + ":" + "07051", false) == Ok(Canonical(once))
            && TsNormalize(Canonical(once), false) == Ok(Canonical(twice))
            && Canonical(once) != Canonical(twice)
  {
    PlainReads("h", "07051", false);
    TsIdempotentExactly("h" + ":" + "07051", false, false);
    DecimalOf07051();
    assert StripZeros("07051") == "7051" by {
      assert "07051"[1..] == "7051";
    }
    CanonicalInjective(Parts("grpc", "h", "07051"), Parts("grpc", "h", "7051"));
  }

  lemma PlainReads(host: string, port: string, tls: bool)
    requires IsName(host) && AllDigits(port)
    ensures TsParts(host + ":" + port, tls) == Ok(Parts(DefaultScheme(tls), host, port))
  {
    hide SplitHostPort, ContainsSchemeMark, Trim, ExplicitScheme, DefaultScheme;
    assert IsName(port);
    PlainText(host, port);
    AuthorityReads(host, port);
  }

  lemma DecimalOf07051()
    ensures AllDigits("07051") && DecimalValue("07051") == 7051
  {
    assert "07051"[..4] == "0705" && "0705"[..3] == "070" && "070"[..2] == "07" && "07"[..1] == "0";
    assert DecimalValue("0") == 0 && DecimalValue("07") == 7 && DecimalValue("070") == 70 && DecimalValue("0705") == 705;
  }
}

// What endpoint texts the two normalizers accept and what each gives, spelled out letter by letter and
// independently of how they parse.
module EndpointGrammar {
  import opened Prelude
  import opened EndpointIdentity

  /******* Characters *******/

  /** The character classes by their ASCII codes: digits, letters, dot, hyphen and underscore; tab to carriage return and blank. */
  lemma ClassesExactly(c: char)
    ensures IsDigit(c) <==> 48 <= c as int <= 57
    ensures IsNameChar(c) <==> 48 <= c as int <= 57 || 65 <= c as int <= 90 || 97 <= c as int <= 122 || c as int in {45, 46, 95}
    ensures IsSpace(c) <==> c as int in {9, 10, 11, 12, 13, 32}
  {
  }

  /** Lower-casing moves the codes of capital letters up by 32 and keeps every other character. */
  lemma LowerExactly(s: string, i: nat)
    requires i < |s|
    ensures Lower(s)[i] as int == if 65 <= s[i] as int <= 90 then s[i] as int + 32 else s[i] as int
  {
  }

  ghost predicate AllSpace(s: string) {
    forall c | c in s :: IsSpace(c)
  }

  /******* Trimming *******/

  lemma {:induction false} TrimLeftSplits(s: string) returns (pre: string)
    ensures s == pre + TrimLeft(s) && AllSpace(pre)
    ensures TrimLeft(s) == "" || !IsSpace(TrimLeft(s)[0])
  {
    if s != "" && IsSpace(s[0]) {
      var rest := TrimLeftSplits(s[1..]);
      pre := [s[0]] + rest;
      hide IsSpace;
      assert forall c | c in pre :: c == s[0] || c in rest;
      assert s == [s[0]] + s[1..] == pre + TrimLeft(s[1..]);
    } else {
      pre := "";
    }
  }

  lemma {:induction false} TrimRightSplits(s: string) returns (post: string)
    ensures s == TrimRight(s) + post && AllSpace(post)
    ensures TrimRight(s) == "" || (!IsSpace(TrimRight(s)[|TrimRight(s)| - 1]) && TrimRight(s)[0] == s[0])
  {
    if s != "" && IsSpace(s[|s| - 1]) {
      var rest := TrimRightSplits(s[..|s| - 1]);
      post := rest + [s[|s| - 1]];
      assert s == s[..|s| - 1] + [s[|s| - 1]];
    } else {
      post := "";
    }
  }

  lemma TrimSplits(s: string) returns (pre: string, post: string)
    ensures s == pre + Trim(s) + post && AllSpace(pre) && AllSpace(post)
    ensures Trim(s) == "" || (!IsSpace(Trim(s)[0]) && !IsSpace(Trim(s)[|Trim(s)| - 1]))
  {
    pre := TrimLeftSplits(s);
    post := TrimRightSplits(TrimLeft(s));
    assert s == pre + (Trim(s) + post) == pre + Trim(s) + post;
  }

  lemma {:induction false} TrimLeftDrops(pre: string, s: string)
    requires AllSpace(pre) && (s == "" || !IsSpace(s[0]))
    ensures TrimLeft(pre + s) == s
  {
    if pre == "" {
      assert pre + s == s;
    } else {
      assert forall c | c in pre[1..] :: c in pre;
      TrimLeftDrops(pre[1..], s);
      assert (pre + s)[1..] == pre[1..] + s && pre[0] in pre;
    }
  }

  lemma {:induction false} TrimRightDrops(s: string, post: string)
    requires AllSpace(post) && (s == "" || !IsSpace(s[|s| - 1]))
    ensures TrimRight(s + post) == s
  {
    if post == "" {
      assert s + post == s;
    } else {
      var n := |post| - 1;
      assert forall c | c in post[..n] :: c in post;
      TrimRightDrops(s, post[..n]);
      assert (s + post)[..|s + post| - 1] == s + post[..n] && post[n] in post;
    }
  }

  /** White space around a text that neither starts nor ends with any is dropped, all of it. */
  lemma TrimDrops(pre: string, core: string, post: string)
    requires AllSpace(pre) && AllSpace(post)
    requires core != "" && !IsSpace(core[0]) && !IsSpace(core[|core| - 1])
    ensures Trim(pre + core + post) == core
  {
    assert pre + core + post == pre + (core + post);
    TrimLeftDrops(pre, core + post);
    TrimRightDrops(core, post);
  }

  lemma {:induction false} TrimLeftOfSpace(s: string)
    requires AllSpace(s)
    ensures TrimLeft(s) == ""
  {
    if s != "" {
      assert s[0] in s && forall c | c in s[1..] :: c in s;
      TrimLeftOfSpace(s[1..]);
    }
  }

  lemma BlankExactly(s: string)
    ensures Trim(s) == "" <==> AllSpace(s)
  {
    if AllSpace(s) {
      TrimLeftOfSpace(s);
    } else if Trim(s) == "" {
      var pre, post := TrimSplits(s);
    }
  }

  /******* Accepted texts *******/

  /** The text of an endpoint: a scheme mark or nothing, host and port, and a slash or nothing, amid white space. */
  ghost predicate Spells(raw: string, pre: string, mark: string, host: string, port: string, slash: string, post: string) {
    && raw == pre + (mark + (host + ":" + port + slash)) + post
    && AllSpace(pre) && AllSpace(post) && IsName(host) && IsName(port)
  }

  /** The Go reading: a plain port may be any name, an explicit one is a number and kept as it is. */
  ghost predicate GoForm(mark: string, host: string, port: string, slash: string, tls: bool, id: string) {
    && slash == ""
    && ( || (mark == "" && id == (if tls then "grpcs" else "grpc") + "://" + Lower(host) + ":" + port)
         || (Lower(mark) == "grpc://" && AllDigits(port) && id == "grpc" + "://" + Lower(host) + ":" + port)
         || (Lower(mark) == "grpcs://" && AllDigits(port) && id == "grpcs" + "://" + Lower(host) + ":" + port))
  }

  /** The TypeScript reading: every port is a number; an explicit one is at most 65535, loses leading zeros, and may end in a slash. */
  ghost predicate TsForm(mark: string, host: string, port: string, slash: string, tls: bool, id: string) {
    && AllDigits(port)
    && ( || (mark == "" && slash == "" && id == (if tls then "grpcs" else "grpc") + "://" + Lower(host) + ":" + port)
         || (Lower(mark) == "grpc://" && (slash == "" || slash == "/") && DecimalValue(port) <= 65535
             && id == "grpc" + "://" + Lower(host) + ":" + StripZeros(port))
         || (Lower(mark) == "grpcs://" && (slash == "" || slash == "/") && DecimalValue(port) <= 65535
             && id == "grpcs" + "://" + Lower(host) + ":" + StripZeros(port)))
  }

  /** Dropping leading zeros keeps the number and leaves a zero in front only when it is the whole text. */
  lemma {:induction false} StrippedExactly(port: string)
    requires AllDigits(port)
    ensures var plain := StripZeros(port);
            && AllDigits(plain) && DecimalValue(plain) == DecimalValue(port)
            && (|plain| == 1 || plain[0] != '0')
  {
    if |port| > 1 && port[0] == '0' {
      ZeroPrefixValue(port);
      assert forall c | c in port[1..] :: c in port;
      StrippedExactly(port[1..]);
    }
  }

  /** How a marked text reads: its scheme, and the rest. */
  lemma MarkReads(mark: string, rest: string)
    requires Lower(mark) == "grpc://" || Lower(mark) == "grpcs://"
    ensures ExplicitScheme(mark + rest) == Some((if Lower(mark) == "grpc://" then "grpc" else "grpcs", rest))
  {
    var text := mark + rest;
    assert forall i | 0 <= i < |mark| :: Lower(text)[i] == Lower(mark)[i];
    assert text[|mark|..] == rest;
    if Lower(mark) == "grpc://" {
      assert |mark| == 7;
      assert "grpc://" <= Lower(text);
    } else {
      assert |mark| == 8;
      assert "grpcs://" <= Lower(text);
      assert Lower(text)[4] == Lower(mark)[4] == 's';
    }
  }

  lemma LowerOfPrefix(s: string, k: nat)
    requires k <= |s|
    ensures Lower(s[..k]) == Lower(s)[..k]
  {
  }

  /** A text that names a scheme starts with its mark, in any case of letters. */
  lemma ReadsMark(value: string) returns (mark: string)
    requires ExplicitScheme(value).Some?
    ensures var (scheme, rest) := ExplicitScheme(value).value;
            value == mark + rest && Lower(mark) == scheme + "://" && (scheme == "grpc" || scheme == "grpcs")
  {
    hide Lower;
    if "grpc://" <= Lower(value) {
      mark := value[..7];
      LowerOfPrefix(value, 7);
      assert "grpc" + "://" == "grpc://";
    } else {
      mark := value[..8];
      LowerOfPrefix(value, 8);
      assert "grpcs" + "://" == "grpcs://";
    }
  }

  lemma SplitReads(text: string)
    requires SplitHostPort(text).Some?
    ensures var (host, port) := SplitHostPort(text).value; text == host + ":" + port && IsName(host) && IsName(port)
  {
    var i := IndexOf(text, ':');
    assert text == text[..i] + ":" + text[i + 1..];
  }

  /** The first and last characters of an endpoint text are not white space. */
  lemma CoreEnds(mark: string, host: string, port: string, slash: string)
    requires IsName(host) && IsName(port) && (slash == "" || slash == "/")
    requires mark == "" || Lower(mark) == "grpc://" || Lower(mark) == "grpcs://"
    ensures var core := mark + (host + ":" + port + slash); core != "" && !IsSpace(core[0]) && !IsSpace(core[|core| - 1])
  {
    var core := mark + (host + ":" + port + slash);
    assert host[0] in host && port[|port| - 1] in port;
    if mark == "" {
      assert core[0] == host[0];
    } else {
      assert core[0] == mark[0] && Lower(mark)[0] == 'g';
    }
    assert core[|core| - 1] == if slash == "" then port[|port| - 1] else '/';
  }

  lemma GoFormReads(raw: string, tls: bool, pre: string, mark: string, host: string, port: string, slash: string, post: string, id: string)
    requires Spells(raw, pre, mark, host, port, slash, post) && GoForm(mark, host, port, slash, tls, id)
    ensures GoNormalize(raw, tls) == Ok(id)
  {
    hide Trim, Lower, SplitHostPort, ExplicitScheme, ContainsSchemeMark, AllDigits, IsName, IsSpace;
    var core, authority := mark + (host + ":" + port + slash), host + ":" + port;
    assert authority + slash == authority;
    CoreEnds(mark, host, port, slash);
    TrimDrops(pre, core, post);
    if mark == "" {
      assert core == authority;
      PlainText(host, port);
    } else {
      MarkReads(mark, authority);
    }
    AuthorityReads(host, port);
  }

  lemma GoReadsForm(raw: string, tls: bool)
    returns (pre: string, mark: string, host: string, port: string, post: string)
    requires GoNormalize(raw, tls).Ok?
    ensures Spells(raw, pre, mark, host, port, "", post) && GoForm(mark, host, port, "", tls, GoNormalize(raw, tls).value)
  {
    hide Trim, Lower, SplitHostPort, ExplicitScheme, ContainsSchemeMark, AllDigits, IsName, IsSpace;
    pre, post := TrimSplits(raw);
    var value := Trim(raw);
    mark := "";
    var authority := value;
    if ExplicitScheme(value).Some? {
      mark := ReadsMark(value);
      authority := ExplicitScheme(value).value.1;
    }
    SplitReads(authority);
    host, port := SplitHostPort(authority).value.0, SplitHostPort(authority).value.1;
    assert host + ":" + port + "" == host + ":" + port;
    assert value == mark + authority;
  }

  /** Go: a text has this identity if and only if it spells an endpoint of this form. */
  lemma GoNormalizeExactly(raw: string, tls: bool, id: string)
    ensures GoNormalize(raw, tls) == Ok(id)
       <==> exists pre, mark, host, port, slash, post ::
              Spells(raw, pre, mark, host, port, slash, post) && GoForm(mark, host, port, slash, tls, id)
  {
    hide GoNormalize, Spells, GoForm;
    if GoNormalize(raw, tls) == Ok(id) {
      var pre, mark, host, port, post := GoReadsForm(raw, tls);
      assert Spells(raw, pre, mark, host, port, "", post) && GoForm(mark, host, port, "", tls, id);
    }
    if pre, mark, host, port, slash, post :|
         Spells(raw, pre, mark, host, port, slash, post) && GoForm(mark, host, port, slash, tls, id) {
      GoFormReads(raw, tls, pre, mark, host, port, slash, post, id);
    }
  }

  /** A name and port before a slash or nothing. */
  lemma DropSlashReads(host: string, port: string, slash: string)
    requires IsName(host) && IsName(port) && (slash == "" || slash == "/")
    ensures DropSlash(host + ":" + port + slash) == host + ":" + port
  {
    assert port[|port| - 1] in port;
    var text := host + ":" + port + slash;
    if slash == "" {
      assert text == host + ":" + port && text[|text| - 1] == port[|port| - 1];
    } else {
      assert text[..|text| - 1] == host + ":" + port;
    }
  }

  lemma TsFormReads(raw: string, tls: bool, pre: string, mark: string, host: string, port: string, slash: string, post: string, id: string)
    requires Spells(raw, pre, mark, host, port, slash, post) && TsForm(mark, host, port, slash, tls, id)
    ensures TsNormalize(raw, tls) == Ok(id)
  {
    hide Trim, Lower, SplitHostPort, ExplicitScheme, ContainsSchemeMark, AllDigits, IsName, IsSpace, StripZeros, DecimalValue;
    var core, authority := mark + (host + ":" + port + slash), host + ":" + port;
    CoreEnds(mark, host, port, slash);
    TrimDrops(pre, core, post);
    DropSlashReads(host, port, slash);
    if mark == "" {
      assert core == authority;
      PlainText(host, port);
    } else {
      MarkReads(mark, authority + slash);
    }
    hide DropSlash;
    AuthorityReads(host, port);
  }

  lemma TsReadsForm(raw: string, tls: bool)
    returns (pre: string, mark: string, host: string, port: string, slash: string, post: string)
    requires TsNormalize(raw, tls).Ok?
    ensures Spells(raw, pre, mark, host, port, slash, post) && TsForm(mark, host, port, slash, tls, TsNormalize(raw, tls).value)
  {
    hide Trim, Lower, SplitHostPort, ExplicitScheme, ContainsSchemeMark, AllDigits, IsName, IsSpace, StripZeros, DecimalValue;
    pre, post := TrimSplits(raw);
    var value := Trim(raw);
    mark, slash := "", "";
    var authority := value;
    if ExplicitScheme(value).Some? {
      mark := ReadsMark(value);
      var rest := ExplicitScheme(value).value.1;
      authority := DropSlash(rest);
      slash := rest[|authority|..];
      assert rest == authority + slash;
    }
    SplitReads(authority);
    host, port := SplitHostPort(authority).value.0, SplitHostPort(authority).value.1;
    assert value == mark + (authority + slash);
  }

  /** TypeScript: a text has this identity if and only if it spells an endpoint of this form. */
  lemma TsNormalizeExactly(raw: string, tls: bool, id: string)
    ensures TsNormalize(raw, tls) == Ok(id)
       <==> exists pre, mark, host, port, slash, post ::
              Spells(raw, pre, mark, host, port, slash, post) && TsForm(mark, host, port, slash, tls, id)
  {
    hide TsNormalize, Spells, TsForm;
    if TsNormalize(raw, tls) == Ok(id) {
      var pre, mark, host, port, slash, post := TsReadsForm(raw, tls);
      assert Spells(raw, pre, mark, host, port, slash, post) && TsForm(mark, host, port, slash, tls, id);
    }
    if pre, mark, host, port, slash, post :|
         Spells(raw, pre, mark, host, port, slash, post) && TsForm(mark, host, port, slash, tls, id) {
      TsFormReads(raw, tls, pre, mark, host, port, slash, post, id);
    }
  }

  /******* Plain names and the TLS flag *******/

  /** A plain endpoint takes the scheme of the flag, whatever its host is called. */
  lemma PlainIdentity(host: string, port: string, tls: bool)
    requires IsName(host) && AllDigits(port)
    ensures GoNormalize(host + ":" + port, tls) == TsNormalize(host + ":" + port, tls)
         == Ok((if tls then "grpcs" else "grpc") + "://" + Lower(host) + ":" + port)
  {
    hide GoNormalize, TsNormalize, AllDigits, Lower, IsName;
    var raw, id := host + ":" + port, (if tls then "grpcs" else "grpc") + "://" + Lower(host) + ":" + port;
    assert IsName(port) by {
      DigitsAreName(port);
    }
    assert raw == "" + ("" + (host + ":" + port + "")) + "";
    assert Spells(raw, "", "", host, port, "", "");
    GoFormReads(raw, tls, "", "", host, port, "", "", id);
    TsFormReads(raw, tls, "", "", host, port, "", "", id);
  }

  lemma DigitsAreName(port: string)
    requires AllDigits(port)
    ensures IsName(port)
  {
  }

  /** The identities of the same host and port with the scheme written out. */
  lemma SecureIdentity(host: string, port: string, tls: bool)
    requires IsName(host) && AllDigits(port)
    ensures GoNormalize("grpcs://" + (host + ":" + port), tls) == Ok("grpcs" + "://" + Lower(host) + ":" + port)
    ensures DecimalValue(port) <= 65535 ==>
              TsNormalize("grpcs://" + (host + ":" + port), tls) == Ok("grpcs" + "://" + Lower(host) + ":" + StripZeros(port))
  {
    hide GoNormalize, TsNormalize, IsName, StripZeros, DecimalValue;
    var raw := "grpcs://" + (host + ":" + port);
    DigitsAreName(port);
    MarkIsLower("grpcs");
    assert "grpcs" + "://" == "grpcs://";
    assert raw == "" + ("grpcs://" + (host + ":" + port + "")) + "";
    assert Spells(raw, "", "grpcs://", host, port, "", "");
    GoFormReads(raw, tls, "", "grpcs://", host, port, "", "", "grpcs" + "://" + Lower(host) + ":" + port);
    if DecimalValue(port) <= 65535 {
      TsFormReads(raw, tls, "", "grpcs://", host, port, "", "", "grpcs" + "://" + Lower(host) + ":" + StripZeros(port));
    }
  }

  /** A plain name stands for its grpcs:// form exactly under the TLS flag; in TypeScript its port must print as it stands, too. */
  lemma PlainIsSecureExactly(host: string, port: string, tls: bool, tls': bool)
    requires IsName(host) && AllDigits(port)
    ensures GoNormalize(host + ":" + port, tls) == GoNormalize("grpcs://" + (host + ":" + port), tls') <==> tls
    ensures DecimalValue(port) <= 65535 ==>
              (TsNormalize(host + ":" + port, tls) == TsNormalize("grpcs://" + (host + ":" + port), tls')
               <==> tls && (|port| == 1 || port[0] != '0'))
  {
    hide GoNormalize, TsNormalize, IsName, DecimalValue;
    PlainIdentity(host, port, tls);
    SecureIdentity(host, port, tls');
    var scheme := if tls then "grpcs" else "grpc";
    IdentityParts(scheme, host, port, "grpcs", host, port);
    if DecimalValue(port) <= 65535 {
      StripZerosKeeps(port);
      IdentityParts(scheme, host, port, "grpcs", host, StripZeros(port));
    }
  }

  lemma IdentityParts(scheme: string, host: string, port: string, scheme': string, host': string, port': string)
    requires (scheme == "grpc" || scheme == "grpcs") && (scheme' == "grpc" || scheme' == "grpcs") && IsName(host) && IsName(host')
    ensures scheme + "://" + Lower(host) + ":" + port == scheme' + "://" + Lower(host') + ":" + port'
       <==> scheme == scheme' && Lower(host) == Lower(host') && port == port'
  {
    LowerName(host);
    LowerName(host');
    if scheme + "://" + Lower(host) + ":" + port == scheme' + "://" + Lower(host') + ":" + port' {
      PrintedApart(scheme, Lower(host), port, scheme', Lower(host'), port');
    }
  }

  lemma {:induction false} StripZerosKeeps(port: string)
    ensures StripZeros(port) == port <==> |port| <= 1 || port[0] != '0'
    ensures |StripZeros(port)| <= |port|
  {
    if |port| > 1 && port[0] == '0' {
      StripZerosKeeps(port[1..]);
    }
  }

  /******* Refused texts *******/

  lemma {:induction false} SchemeMarkExactly(s: string)
    ensures ContainsSchemeMark(s) <==> Occurs(s, "://")
  {
    if s == "" {
      assert forall i :: !OccursAt(s, "://", i);
    } else {
      SchemeMarkExactly(s[1..]);
      OccursTail(s, "://");
    }
  }

  /** The text after leading white space starts with this scheme, in any case of letters. */
  ghost predicate NamesScheme(raw: string, scheme: string) {
    exists pre, mark, rest :: Marked(raw, pre, mark, rest, scheme)
  }

  ghost predicate Marked(raw: string, pre: string, mark: string, rest: string, scheme: string) {
    raw == pre + (mark + rest) && AllSpace(pre) && Lower(mark) == scheme + "://"
  }

  /** What is no white space stands in the core. */
  lemma InCore(pre: string, core: string, post: string, k: nat)
    requires AllSpace(pre) && AllSpace(post)
    requires k < |pre + core + post| && !IsSpace((pre + core + post)[k])
    ensures |pre| <= k < |pre| + |core|
  {
  }

  /** White space around a text adds no scheme mark. */
  lemma OccursAmidSpace(pre: string, core: string, post: string)
    requires AllSpace(pre) && AllSpace(post)
    ensures Occurs(pre + core + post, "://") <==> Occurs(core, "://")
  {
    var raw := pre + core + post;
    if i: nat :| OccursAt(core, "://", i) {
      assert raw[|pre| + i..] == core[i..] + post;
      assert OccursAt(raw, "://", |pre| + i);
    }
    if i: nat :| OccursAt(raw, "://", i) {
      assert raw[i] == raw[i..][0] && raw[i + 1] == raw[i..][1] && raw[i + 2] == raw[i..][2];
      InCore(pre, core, post, i);
      InCore(pre, core, post, i + 2);
      var k := i - |pre|;
      assert raw[i..] == core[k..] + post;
      assert OccursAt(core, "://", k);
    }
  }

  lemma NamesSchemeExactly(raw: string, scheme: string)
    requires scheme == "grpc" || scheme == "grpcs"
    ensures NamesScheme(raw, scheme) <==> ExplicitScheme(Trim(raw)).Some? && ExplicitScheme(Trim(raw)).value.0 == scheme
  {
    hide Lower, Trim, IsSpace;
    var pre, post := TrimSplits(raw);
    var value := Trim(raw);
    if ExplicitScheme(value).Some? && ExplicitScheme(value).value.0 == scheme {
      var mark := ReadsMark(value);
      var rest := ExplicitScheme(value).value.1;
      assert raw == pre + (mark + (rest + post));
      assert Marked(raw, pre, mark, rest + post, scheme);
    }
    if pre', mark, rest :| Marked(raw, pre', mark, rest, scheme) {
      SchemeSurvivesTrim(raw, pre', mark, rest, scheme);
    }
  }

  lemma SchemeSurvivesTrim(raw: string, pre: string, mark: string, rest: string, scheme: string)
    requires Marked(raw, pre, mark, rest, scheme) && (scheme == "grpc" || scheme == "grpcs")
    ensures ExplicitScheme(Trim(raw)).Some? && ExplicitScheme(Trim(raw)).value.0 == scheme
  {
    hide Trim, TrimLeft, TrimRight, Lower, IsSpace, ExplicitScheme;
    assert "grpc" + "://" == "grpc://" && "grpcs" + "://" == "grpcs://";
    MarkEnds(mark);
    assert !IsSpace('/') by {
      BlankOrNot();
    }
    TrimLeftDrops(pre, mark + rest);
    TrimIs(raw);
    var post := TrimRightSplits(mark + rest);
    var value := TrimRight(mark + rest);
    assert "" + value + post == mark + rest;
    InCore("", value, post, |mark| - 1);
    FrontOf(mark, rest, value, post);
    MarkReads(mark, value[|mark|..]);
  }

  lemma BlankOrNot()
    ensures !IsSpace('/')
  {
  }

  lemma FrontOf(mark: string, rest: string, value: string, post: string)
    requires mark + rest == value + post && |mark| <= |value|
    ensures value == mark + value[|mark|..]
  {
    assert forall i | 0 <= i < |mark| :: (mark + rest)[i] == mark[i] && (value + post)[i] == value[i];
  }

  lemma TrimIs(raw: string)
    ensures Trim(raw) == TrimRight(TrimLeft(raw))
  {
  }

  lemma MarkEnds(mark: string)
    requires Lower(mark) == "grpc://" || Lower(mark) == "grpcs://"
    ensures mark != "" && mark[|mark| - 1] == '/' && !IsSpace(mark[0])
  {
    MarkLetters(Lower(mark));
    EndsOf(mark, Lower(mark));
  }

  lemma EndsOf(mark: string, lower: string)
    requires |lower| == |mark| > 0 && lower[0] == LowerChar(mark[0]) && lower[|mark| - 1] == LowerChar(mark[|mark| - 1])
    requires lower[0] == 'g' && lower[|lower| - 1] == '/'
    ensures mark[|mark| - 1] == '/' && !IsSpace(mark[0])
  {
  }

  lemma MarkLetters(lower: string)
    requires lower == "grpc://" || lower == "grpcs://"
    ensures lower != "" && lower[0] == 'g' && lower[|lower| - 1] == '/'
  {
  }

  /** Which error: blank text, a foreign scheme, or anything else that spells no endpoint. */
  lemma RefusedExactly(raw: string, tls: bool)
    ensures GoNormalize(raw, tls) == Err(EmptyEndpoint) <==> AllSpace(raw)
    ensures TsNormalize(raw, tls) == Err(EmptyEndpoint) <==> AllSpace(raw)
    ensures GoNormalize(raw, tls) == Err(UnsupportedScheme) <==> Occurs(raw, "://") && !NamesScheme(raw, "grpc") && !NamesScheme(raw, "grpcs")
    ensures TsNormalize(raw, tls) == Err(UnsupportedScheme) <==> Occurs(raw, "://") && !NamesScheme(raw, "grpc") && !NamesScheme(raw, "grpcs")
  {
    hide Trim, ExplicitScheme, SplitHostPort, ContainsSchemeMark, AllDigits, PortInRange, DropSlash, NamesScheme, Occurs;
    var pre, post := TrimSplits(raw);
    BlankExactly(raw);
    NamesSchemeExactly(raw, "grpc");
    NamesSchemeExactly(raw, "grpcs");
    SchemeIsKnown(Trim(raw));
    OccursAmidSpace(pre, Trim(raw), post);
    SchemeMarkExactly(Trim(raw));
    if Trim(raw) == "" {
      BlankHasNoMark();
    }
  }

  lemma SchemeIsKnown(value: string)
    ensures ExplicitScheme(value).Some? ==> ExplicitScheme(value).value.0 == "grpc" || ExplicitScheme(value).value.0 == "grpcs"
  {
  }

  /** The prefix test for TLS asks for the scheme grpcs. */
  lemma SecureMarkExactly(raw: string)
    ensures "grpcs://" <= Lower(Trim(raw)) <==> NamesScheme(raw, "grpcs")
  {
    hide Trim, Lower, NamesScheme;
    NamesSchemeExactly(raw, "grpcs");
    var lower := Lower(Trim(raw));
    assert "grpc://" <= lower ==> lower[4] == "grpc://"[4];
    assert "grpcs://" <= lower ==> lower[4] == "grpcs://"[4];
  }

  lemma BlankHasNoMark()
    ensures !ContainsSchemeMark("")
  {
  }
}

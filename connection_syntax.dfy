/**
 * Readers for the three Oracle connection strings the database formatter
 * writes. Each reader is the inverse of its writer: when the attributes do not
 * contain the separators the format relies on, reading the written string gives
 * back exactly the attributes that went into it, so the written string is fully
 * determined by them and no attribute is lost or misplaced.
 */
module ConnectionSyntax {
  import opened Wrappers
  import opened RubySplit
  import opened DatabaseFormatter

  /** The parts of a JDBC URL: the optional `user/password` login, then host, port and sid. */
  datatype JdbcParts = JdbcParts(login: Option<(string, string)>, host: string, port: string, sid: string)

  /** The parts of a TNS descriptor. */
  datatype TnsParts = TnsParts(host: string, port: string, sid: string)

  /** The parts of an SqlPlus login: user, optional password, TNS descriptor. */
  datatype SqlplusParts = SqlplusParts(user: string, password: Option<string>, tns: TnsParts)

  /** Reads `host:port:sid`; the sid is everything after the second colon. */
  function ReadAddress(a: string): (r: Option<(string, string, string)>)
    ensures r.Some? ==> a == r.value.0 + ":" + r.value.1 + ":" + r.value.2
  {
    match CutAt(a, ':')
    case None => None
    case Some((host, rest)) =>
      match CutAt(rest, ':')
      case None => None
      case Some((port, sid)) => Some((host, port, sid))
  }

  /** Reads `jdbc:oracle:thin:[user/password]@host:port:sid`. */
  function ReadJdbc(url: string): Option<JdbcParts> {
    var pre := JdbcPrefix + ":";
    if !StartsWith(url, pre) then None
    else match CutAt(url[|pre|..], '@')
      case None => None
      case Some((login, address)) =>
        match ReadAddress(address)
        case None => None
        case Some((host, port, sid)) =>
          match ReadJdbcLogin(login)
          case None => None
          case Some(l) => Some(JdbcParts(l, host, port, sid))
  }

  /** Reads the login of a JDBC URL: nothing, or `user/password`. */
  function ReadJdbcLogin(login: string): Option<Option<(string, string)>> {
    if login == [] then Some(None)
    else match CutAt(login, '/')
      case None => None
      case Some(pair) => Some(Some(pair))
  }

  /** Reads the TNS descriptor template; the sid is everything between its markers. */
  function ReadTns(s: string): Option<TnsParts> {
    var portMark := TnsPort[1..];
    var sidMark := TnsSid[1..];
    if !StartsWith(s, TnsHead) then None
    else match CutAt(s[|TnsHead|..], ')')
      case None => None
      case Some((host, r1)) =>
        if !StartsWith(r1, portMark) then None
        else match CutAt(r1[|portMark|..], ')')
          case None => None
          case Some((port, r2)) =>
            if |r2| >= |sidMark| + |TnsTail| && StartsWith(r2, sidMark) && EndsWith(r2, TnsTail)
            then Some(TnsParts(host, port, r2[|sidMark|..|r2| - |TnsTail|]))
            else None
  }

  /** Reads `"@<inner>"` and gives back `inner`. */
  function Unquote(s: string): Option<string> {
    if |s| >= 3 && StartsWith(s, "\"@") && EndsWith(s, "\"") then Some(s[2..|s| - 1]) else None
  }

  /** Reads `user[/password]` */
  function ReadLogin(login: string): (string, Option<string>) {
    match CutAt(login, '/')
    case None => (login, None)
    case Some((user, password)) => (user, Some(password))
  }

  /** Reads `user[/password]@"@<tns>"`. */
  function ReadSqlplus(s: string): Option<SqlplusParts> {
    match CutAt(s, '@')
    case None => None
    case Some((login, rest)) =>
      match Unquote(rest)
      case None => None
      case Some(inner) =>
        match ReadTns(inner)
        case None => None
        case Some(t) => Some(SqlplusParts(ReadLogin(login).0, ReadLogin(login).1, t))
  }

  /** Reading the written address gives back host, port and sid when host and port have no colon. */
  lemma ReadAddressOf(host: string, port: string, sid: string)
    requires ':' !in host && ':' !in port
    ensures ReadAddress(host + ":" + port + ":" + sid) == Some((host, port, sid))
  {
    assert host + ":" + port + ":" + sid == host + [':'] + (port + [':'] + sid);
    CutAtJoin(host, port + [':'] + sid, ':');
    CutAtJoin(port, sid, ':');
  }

  /** The JDBC URL is the prefix, the login, an `@` and the address. */
  lemma JdbcTextShape(p: Planet)
    ensures Jdbc(p).text == (JdbcPrefix + ":") + (JdbcLogin(p) + ['@'] + Address(p))
  {
  }

  /** Reading the prefix, a login without `@`, an `@` and an address. */
  lemma ReadJdbcOf(login: string, host: string, port: string, sid: string)
    requires '@' !in login && ':' !in host && ':' !in port
    ensures ReadJdbc((JdbcPrefix + ":") + (login + ['@'] + (host + ":" + port + ":" + sid))) ==
      match ReadJdbcLogin(login)
      case None => None
      case Some(l) => Some(JdbcParts(l, host, port, sid))
  {
    var pre := JdbcPrefix + ":";
    var address := host + ":" + port + ":" + sid;
    var text := pre + (login + ['@'] + address);
    assert StartsWith(text, pre);
    assert text[|pre|..] == login + ['@'] + address;
    CutAtJoin(login, address, '@');
    ReadAddressOf(host, port, sid);
  }

  /**
   * JDBC round trip: with a password the URL gives back user, password, host, port and
   * sid; without one it gives back no login at all, whatever the user attribute holds.
   */
  lemma JdbcRoundTrip(p: Planet)
    requires ':' !in Val(p, "host") && ':' !in Val(p, "port")
    requires Attr(p, "password").Some? ==>
      '@' !in Val(p, "user") && '/' !in Val(p, "user") && '@' !in Val(p, "password")
    ensures ReadJdbc(Jdbc(p).text) ==
      Some(JdbcParts(
        if Attr(p, "password").Some? then Some((Val(p, "user"), Val(p, "password"))) else None,
        Val(p, "host"), Val(p, "port"), Val(p, "sid")))
  {
    var login := JdbcLogin(p);
    JdbcTextShape(p);
    assert Address(p) == Val(p, "host") + ":" + Val(p, "port") + ":" + Val(p, "sid");
    ReadJdbcOf(login, Val(p, "host"), Val(p, "port"), Val(p, "sid"));
    if Attr(p, "password").Some? {
      assert login == Val(p, "user") + ['/'] + Val(p, "password");
      CutAtJoin(Val(p, "user"), Val(p, "password"), '/');
    }
  }

  /** Regrouping a filled seven-part template around the closing parentheses that open its third and fifth parts. */
  lemma RegroupTemplate(h: string, host: string, pt: string, port: string, st: string, sid: string, tail: string)
    requires |pt| >= 1 && pt[0] == ')' && |st| >= 1 && st[0] == ')'
    ensures h + host + pt + port + st + sid + tail ==
      h + (host + [')'] + (pt[1..] + (port + [')'] + (st[1..] + sid + tail))))
  {
    assert pt == [')'] + pt[1..];
    assert st == [')'] + st[1..];
  }

  /** The TNS template regrouped around the two closing parentheses that end host and port. */
  lemma TnsTemplateShape(host: string, port: string, sid: string)
    ensures TnsHead + host + TnsPort + port + TnsSid + sid + TnsTail ==
      TnsHead + (host + [')'] + (TnsPort[1..] + (port + [')'] + (TnsSid[1..] + sid + TnsTail))))
  {
    RegroupTemplate(TnsHead, host, TnsPort, port, TnsSid, sid, TnsTail);
  }

  /** Reading the TNS template filled with host, port and sid gives them back. */
  lemma ReadTnsOf(host: string, port: string, sid: string)
    requires ')' !in host && ')' !in port
    ensures ReadTns(TnsHead + host + TnsPort + port + TnsSid + sid + TnsTail) == Some(TnsParts(host, port, sid))
  {
    var portMark := TnsPort[1..];
    var sidMark := TnsSid[1..];
    var r2 := sidMark + sid + TnsTail;
    var r1 := portMark + (port + [')'] + r2);
    var text := TnsHead + host + TnsPort + port + TnsSid + sid + TnsTail;
    TnsTemplateShape(host, port, sid);
    assert StartsWith(text, TnsHead);
    assert text[|TnsHead|..] == host + [')'] + r1;
    CutAtJoin(host, r1, ')');
    assert StartsWith(r1, portMark);
    assert r1[|portMark|..] == port + [')'] + r2;
    CutAtJoin(port, r2, ')');
    assert StartsWith(r2, sidMark) && EndsWith(r2, TnsTail);
    assert r2[|sidMark|..|r2| - |TnsTail|] == sid;
  }

  /** The TNS descriptor is the fixed template with host, port and sid filled in verbatim. */
  lemma TnsTextShape(p: Planet)
    ensures Tns(p).text ==
      TnsHead + Val(p, "host") + TnsPort + Val(p, "port") + TnsSid + Val(p, "sid") + TnsTail
  {
  }

  /** TNS round trip: host, port and sid come back when host and port have no closing parenthesis. */
  lemma TnsRoundTrip(p: Planet)
    requires ')' !in Val(p, "host") && ')' !in Val(p, "port")
    ensures ReadTns(Tns(p).text) == Some(TnsParts(Val(p, "host"), Val(p, "port"), Val(p, "sid")))
  {
    ReadTnsOf(Val(p, "host"), Val(p, "port"), Val(p, "sid"));
  }

  /** The SqlPlus string is the login, an `@` and the quoted, `@`-prefixed TNS descriptor. */
  lemma SqlplusTextShape(p: Planet)
    ensures Sqlplus(p).text == SqlplusLogin(p) + ['@'] + ("\"@" + Tns(p).text + "\"")
  {
    var t := Tns(p).text;
    assert "@\"@" + t + "\"" == ['@'] + ("\"@" + t + "\"");
  }

  /** Unquoting a quoted, `@`-prefixed string gives it back. */
  lemma UnquoteOf(t: string)
    ensures Unquote("\"@" + t + "\"") == Some(t)
  {
    var q := "\"@" + t + "\"";
    assert q[..2] == "\"@";
    assert q[|q| - 1..] == "\"";
    assert q[2..|q| - 1] == t;
  }

  /** Reading a login, an `@` and a quoted, `@`-prefixed TNS descriptor. */
  lemma ReadSqlplusOf(user: string, password: Option<string>, tns: string)
    requires '@' !in user && '/' !in user
    requires password.Some? ==> '@' !in password.value
    ensures var login := if password.Some? then user + "/" + password.value else user;
      ReadSqlplus(login + ['@'] + ("\"@" + tns + "\"")) ==
        match ReadTns(tns)
        case None => None
        case Some(t) => Some(SqlplusParts(user, password, t))
  {
    var login := if password.Some? then user + "/" + password.value else user;
    var rest := "\"@" + tns + "\"";
    assert '@' !in login;
    CutAtJoin(login, rest, '@');
    UnquoteOf(tns);
    if password.Some? {
      assert login == user + ['/'] + password.value;
      CutAtJoin(user, password.value, '/');
    }
  }

  /** SqlPlus round trip: user, the optional password and the whole TNS descriptor come back. */
  lemma SqlplusRoundTrip(p: Planet)
    requires '@' !in Val(p, "user") && '/' !in Val(p, "user")
    requires Attr(p, "password").Some? ==> '@' !in Val(p, "password")
    requires ')' !in Val(p, "host") && ')' !in Val(p, "port")
    ensures ReadSqlplus(Sqlplus(p).text) ==
      Some(SqlplusParts(Val(p, "user"), Attr(p, "password"),
        TnsParts(Val(p, "host"), Val(p, "port"), Val(p, "sid"))))
  {
    SqlplusTextShape(p);
    TnsRoundTrip(p);
    ReadSqlplusOf(Val(p, "user"), Attr(p, "password"), Tns(p).text);
  }

  /** Moving the text after an `@` of the password in front of the host leaves the URL body unchanged. */
  lemma MoveAfterAt(u: string, a: string, b: string, h: string, port: string, sid: string)
    ensures (u + "/" + (a + ['@'] + b)) + ['@'] + (h + ":" + port + ":" + sid) ==
      (u + "/" + a) + ['@'] + ((b + "@" + h) + ":" + port + ":" + sid)
  {
  }

  /**
   * Why the JDBC round trip excludes an `@` in the password: cutting such a password at
   * its first `@` and moving the rest in front of the host gives a different planet
   * with the same URL (`u/p@h@x:1:s` from password `p@h`, host `x` or password `p`, host `h@x`).
   */
  lemma JdbcAmbiguousWithAtInPassword(p: Planet)
    requires Attr(p, "password").Some? && '@' in Val(p, "password")
    ensures var cut := CutAt(Val(p, "password"), '@').value;
      var q := WithAttr(WithAttr(p, "password", Some(cut.0)), "host", Some(cut.1 + "@" + Val(p, "host")));
      q != p && Jdbc(q).text == Jdbc(p).text
  {
    var pw := Val(p, "password");
    var cut := CutAt(pw, '@').value;
    var a, b := cut.0, cut.1;
    var q := WithAttr(WithAttr(p, "password", Some(a)), "host", Some(b + "@" + Val(p, "host")));
    var u, h, port, sid := Val(p, "user"), Val(p, "host"), Val(p, "port"), Val(p, "sid");
    assert Attr(q, "password") == Some(a);
    assert |a| < |pw|;
    assert Attr(q, "password") != Attr(p, "password");
    assert JdbcLogin(p) == u + "/" + (a + ['@'] + b);
    assert Address(p) == h + ":" + port + ":" + sid;
    assert Val(q, "user") == u && Val(q, "port") == port && Val(q, "sid") == sid;
    assert JdbcLogin(q) == u + "/" + a;
    assert Address(q) == (b + "@" + h) + ":" + port + ":" + sid;
    MoveAfterAt(u, a, b, h, port, sid);
    JdbcTextShape(p);
    JdbcTextShape(q);
  }
}

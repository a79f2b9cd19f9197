/**
 * `Fifa::Formatter::Database`: renders a planet (a connection descriptor with
 * an id and optional string attributes) as a JDBC URL, an SqlPlus login, an
 * Oracle TNS descriptor, or a pqdb address.
 *
 * Ruby semantics kept explicit:
 * - `planet['x']` is `nil` when the attribute is absent; `"#{nil}"` is `""`.
 * - `if planet['password']` holds for every present value, `""` included.
 * - `split('@')`, `first` and `last` are those of module RubySplit.
 *
 * Collaborators outside this file (`Planet.find`, `connection(:ssh)`, the
 * logger's error list, the `UNKNOWN` type constant) are parameters, gathered
 * in `Services`. The calls to `log_if_missing` and `log` are returned as data,
 * in call order, next to the rendered text.
 */
module DatabaseFormatter {
  import opened Wrappers
  import opened RubySplit

  /** A planet: its id and its attributes; a name without an entry reads as `nil`. */
  datatype Planet = Planet(id: string, attrs: map<string, string>)

  /** One call the formatter makes into the logging layer. */
  datatype LogCall =
    | LogIfMissing(planet: Planet, names: seq<string>)  // log_if_missing(planet, *names)
    | Log(planetId: string, errors: seq<string>)        // log(planet.id, errors)

  /** A formatted string together with the logging calls made while producing it. */
  datatype Rendered = Rendered(text: string, calls: seq<LogCall>)

  /** What the formatter asks of code outside its file. */
  datatype Services = Services(
    find: string -> Planet,          // Fifa::Planet.find(id)
    connection: Planet -> string,    // server.connection(:ssh)
    errors: string -> seq<string>,   // Logger.instance.errors(id), as seen after the connection
    unknownType: string)             // Fifa::Planet::UNKNOWN

  const JdbcPrefix := "jdbc:oracle:thin"
  const TnsHead := "(DESCRIPTION=(ADDRESS_LIST=(ADDRESS=(PROTOCOL=TCP)(HOST="
  const TnsPort := ")(PORT="
  const TnsSid := ")))(CONNECT_DATA=(SID="
  const TnsTail := ")))"

  /** `planet[name]` */
  function Attr(p: Planet, name: string): (v: Option<string>)
    ensures v.Some? <==> name in p.attrs
    ensures v.Some? ==> v.value == p.attrs[name]
  {
    if name in p.attrs then Some(p.attrs[name]) else None
  }

  /** `"#{v}"` for a string or `nil`. */
  function Interp(v: Option<string>): (s: string)
    ensures v.None? ==> s == []
    ensures v.Some? ==> s == v.value
  {
    v.GetOr([])
  }

  /** The planet with one attribute set (`Some`) or removed (`None`); the id is kept. */
  function WithAttr(p: Planet, name: string, v: Option<string>): (q: Planet)
    ensures q.id == p.id
    ensures Attr(q, name) == v
    ensures forall n :: n != name ==> Attr(q, n) == Attr(p, n)
  {
    match v
    case Some(x) => Planet(p.id, p.attrs[name := x])
    case None => Planet(p.id, p.attrs - {name})
  }

  /** `"#{planet[name]}"`: the attribute as the formatter interpolates it. */
  function Val(p: Planet, name: string): (s: string)
    ensures name !in p.attrs ==> s == []
    ensures name in p.attrs ==> s == p.attrs[name]
  {
    Interp(Attr(p, name))
  }

  /** `host:port:sid`, the address part of a JDBC URL. */
  function Address(p: Planet): string {
    Val(p, "host") + ":" + Val(p, "port") + ":" + Val(p, "sid")
  }

  /** The login of a JDBC URL: `user/password` when a password is present, else nothing. */
  function JdbcLogin(p: Planet): string {
    if Attr(p, "password").Some? then Val(p, "user") + "/" + Val(p, "password") else ""
  }

  /** The login of an SqlPlus string: `user/password` when a password is present, else `user`. */
  function SqlplusLogin(p: Planet): string {
    if Attr(p, "password").Some? then Val(p, "user") + "/" + Val(p, "password") else Val(p, "user")
  }

  /** `jdbc(planet)`: the Oracle thin-driver URL. */
  function Jdbc(p: Planet): (r: Rendered)
    ensures r.calls == [LogIfMissing(p, ["host", "port", "sid"])]
    ensures StartsWith(r.text, JdbcPrefix + ":")
    ensures EndsWith(r.text, "@" + Address(p))
  {
    var pre := JdbcPrefix + ":";
    var suf := "@" + Address(p);
    var text := pre + JdbcLogin(p) + suf;
    assert text == pre + (JdbcLogin(p) + suf);
    Rendered(text, [LogIfMissing(p, ["host", "port", "sid"])])
  }

  /** `tns(planet)`: the Oracle TNS connect descriptor, host, port and sid inserted verbatim. */
  function Tns(p: Planet): (r: Rendered)
    ensures r.calls == [LogIfMissing(p, ["host", "port", "sid"])]
    ensures StartsWith(r.text, TnsHead + Val(p, "host") + TnsPort)
    ensures EndsWith(r.text, TnsSid + Val(p, "sid") + TnsTail)
  {
    var text :=
      TnsHead + Val(p, "host") + TnsPort + Val(p, "port") + TnsSid + Val(p, "sid") + TnsTail;
    assert text == (TnsHead + Val(p, "host") + TnsPort) + (Val(p, "port") + TnsSid + Val(p, "sid") + TnsTail);
    assert text == (TnsHead + Val(p, "host") + TnsPort + Val(p, "port")) + (TnsSid + Val(p, "sid") + TnsTail);
    Rendered(text, [LogIfMissing(p, ["host", "port", "sid"])])
  }

  /** `sqlplus(planet)`: `user[/password]@"@<tns>"`. */
  function Sqlplus(p: Planet): (r: Rendered)
    ensures r.calls == [LogIfMissing(p, ["user"])] + Tns(p).calls
    ensures StartsWith(r.text, Val(p, "user"))
    ensures EndsWith(r.text, "@\"@" + Tns(p).text + "\"")
  {
    var tns := Tns(p);
    var login := SqlplusLogin(p);
    var text := login + ("@\"@" + tns.text + "\"");
    assert text[..|Val(p, "user")|] == login[..|Val(p, "user")|];
    Rendered(text, [LogIfMissing(p, ["user"])] + tns.calls)
  }

  /** The placeholder planet `Planet.new('id' => id, 'type' => UNKNOWN)`. */
  function Placeholder(id: string, w: Services): (q: Planet)
    ensures q.id == id
    ensures Attr(q, "type") == Some(w.unknownType)
  {
    Planet(id, map["id" := id, "type" := w.unknownType])
  }

  /**
   * `find_server(planet)`: the placeholder (own id, type UNKNOWN) when `pqdb` is absent,
   * empty or all `@`; otherwise the planet named by the text before the first `@`.
   */
  function FindServer(p: Planet, w: Services): (q: Planet)
    ensures Attr(p, "pqdb").None? || AllSep(Attr(p, "pqdb").value, '@') ==>
      q == Placeholder(p.id, w)
    ensures Attr(p, "pqdb").Some? && !AllSep(Attr(p, "pqdb").value, '@') ==>
      q == w.find(TakeUntil(Attr(p, "pqdb").value, '@'))
  {
    match Attr(p, "pqdb")
    case None => Placeholder(p.id, w)
    case Some(v) =>
      SplitFirst(v, '@');
      match First(Split(v, '@'))
      case Some(id) => w.find(id)
      case None => Placeholder(p.id, w)
  }

  /**
   * The path part of `pqdb`: `planet['pqdb']&.split('@')&.last`, which is `nil` when the
   * attribute is absent, empty or all `@`, and otherwise the text after the last `@`
   * once trailing `@` are trimmed.
   */
  function PqdbPath(p: Planet): (path: Option<string>)
    ensures path.None? <==> Attr(p, "pqdb").None? || AllSep(Attr(p, "pqdb").value, '@')
    ensures path.Some? ==> path.value == AfterLast(TrimTrailing(Attr(p, "pqdb").value, '@'), '@')
  {
    match Attr(p, "pqdb")
    case None => None
    case Some(v) => SplitLast(v, '@'); Last(Split(v, '@'))
  }

  /** `pqdb(planet)`: `<path>:<connection value of the server>`, forwarding the server's errors. */
  function Pqdb(p: Planet, w: Services): (r: Rendered)
    ensures |r.calls| >= 1 && r.calls[0] == LogIfMissing(p, ["pqdb"])
    ensures |r.calls| == 2 <==> w.errors(FindServer(p, w).id) != []
    ensures |r.calls| <= 2
    ensures |r.calls| == 2 ==> r.calls[1] == Log(p.id, w.errors(FindServer(p, w).id))
    ensures EndsWith(r.text, ":" + w.connection(FindServer(p, w)))
  {
    var server := FindServer(p, w);
    var value := w.connection(server);
    var errors := w.errors(server.id);
    var forwarded := if |errors| > 0 then [Log(p.id, errors)] else [];
    var tail := ":" + value;
    Rendered(Interp(PqdbPath(p)) + tail, [LogIfMissing(p, ["pqdb"])] + forwarded)
  }

  /** `ski_value`, an alias of `pqdb`. */
  function SkiValue(p: Planet, w: Services): (r: Rendered)
    ensures r == Pqdb(p, w)
  {
    Pqdb(p, w)
  }

  // Properties.

  /** Without a password, the user attribute does not reach the JDBC URL, whatever its value. */
  lemma JdbcIgnoresUserWithoutPassword(p: Planet, user: Option<string>)
    requires Attr(p, "password").None?
    ensures Jdbc(WithAttr(p, "user", user)).text == Jdbc(p).text
    ensures Jdbc(p).text == JdbcPrefix + ":@" + Address(p)
  {
  }

  /** An empty password is a present password: it yields the `user/@` form, not the password-less one. */
  lemma EmptyPasswordIsPresent(p: Planet)
    ensures Jdbc(WithAttr(p, "password", Some(""))).text != Jdbc(WithAttr(p, "password", None)).text
    ensures Sqlplus(WithAttr(p, "password", Some(""))).text != Sqlplus(WithAttr(p, "password", None)).text
  {
  }

  /** Any attribute but `password` reads the same absent as empty: a missing attribute only leaves its segment empty. */
  lemma AbsentReadsAsEmpty(p: Planet, name: string)
    requires name != "password"
    ensures Jdbc(WithAttr(p, name, None)).text == Jdbc(WithAttr(p, name, Some(""))).text
    ensures Tns(WithAttr(p, name, None)).text == Tns(WithAttr(p, name, Some(""))).text
    ensures Sqlplus(WithAttr(p, name, None)).text == Sqlplus(WithAttr(p, name, Some(""))).text
  {
    var q, q' := WithAttr(p, name, None), WithAttr(p, name, Some(""));
    forall n ensures Val(q, n) == Val(q', n) { }
    assert Attr(q, "password").Some? == Attr(q', "password").Some?;
    assert Address(q) == Address(q');
    assert JdbcLogin(q) == JdbcLogin(q') && SqlplusLogin(q) == SqlplusLogin(q');
    assert Tns(q).text == Tns(q').text;
  }

  /** A non-empty `pqdb` without `@` names a server by the whole value. */
  lemma FindServerWithoutAt(p: Planet, w: Services)
    requires Attr(p, "pqdb").Some? && Attr(p, "pqdb").value != "" && '@' !in Attr(p, "pqdb").value
    ensures FindServer(p, w) == w.find(Attr(p, "pqdb").value)
  {
    SplitNoSep(Attr(p, "pqdb").value, '@');
  }

  /**
   * The text of `pqdb`: the part of the attribute after its last `@` once trailing `@`
   * are trimmed (empty when the attribute is absent or all `@`), a colon, and the
   * connection value of the resolved server.
   */
  lemma PqdbText(p: Planet, w: Services)
    ensures var path :=
        if Attr(p, "pqdb").None? || AllSep(Attr(p, "pqdb").value, '@') then ""
        else AfterLast(TrimTrailing(Attr(p, "pqdb").value, '@'), '@');
      Pqdb(p, w).text == path + ":" + w.connection(FindServer(p, w))
  {
  }

  /**
   * With the placeholder server (`pqdb` absent, empty or all `@`), `pqdb` forwards the
   * errors the logger holds for the planet itself, and logs nothing more when there are none.
   */
  lemma PlaceholderForwardsOwnErrors(p: Planet, w: Services)
    requires Attr(p, "pqdb").None? || AllSep(Attr(p, "pqdb").value, '@')
    ensures Pqdb(p, w).calls ==
      [LogIfMissing(p, ["pqdb"])] + (if w.errors(p.id) != [] then [Log(p.id, w.errors(p.id))] else [])
  {
  }

  /**
   * A `pqdb` value made of `@`-free fields, the last one non-empty, names the server in its
   * first field and the path in its last one.
   */
  lemma PqdbOfJoin(p: Planet, w: Services, fs: seq<string>)
    requires |fs| >= 1 && fs[|fs| - 1] != []
    requires forall i :: 0 <= i < |fs| ==> '@' !in fs[i]
    requires Attr(p, "pqdb") == Some(Join(fs, '@'))
    ensures FindServer(p, w) == w.find(fs[0])
    ensures Pqdb(p, w).text == fs[|fs| - 1] + ":" + w.connection(w.find(fs[0]))
  {
    JoinedPqdbResolves(p, w, fs);
    PqdbTextOfPath(p, w, fs[|fs| - 1]);
  }

  /** The text of `pqdb` once its path is known. */
  lemma PqdbTextOfPath(p: Planet, w: Services, path: string)
    requires PqdbPath(p) == Some(path)
    ensures Pqdb(p, w).text == path + ":" + w.connection(FindServer(p, w))
  {
  }

  /** The split of a joined `pqdb` value, as `find_server` and the path see it. */
  lemma JoinedPqdbResolves(p: Planet, w: Services, fs: seq<string>)
    requires |fs| >= 1 && fs[|fs| - 1] != []
    requires forall i :: 0 <= i < |fs| ==> '@' !in fs[i]
    requires Attr(p, "pqdb") == Some(Join(fs, '@'))
    ensures FindServer(p, w) == w.find(fs[0])
    ensures PqdbPath(p) == Some(fs[|fs| - 1])
  {
    SplitJoin(fs, '@');
  }

  /** `srvA@path/to/db` names server `srvA` and path `path/to/db`. */
  lemma PqdbServerAndPath(p: Planet, w: Services)
    requires Attr(p, "pqdb") == Some("srvA@path/to/db")
    ensures FindServer(p, w) == w.find("srvA")
    ensures Pqdb(p, w).text == "path/to/db" + ":" + w.connection(w.find("srvA"))
  {
    var fs := ["srvA", "path/to/db"];
    assert Join(fs[1..], '@') == "path/to/db";
    assert Join(fs, '@') == "srvA@path/to/db";
    PqdbOfJoin(p, w, fs);
  }

  /** `justpath`, without `@`, names server `justpath` and path `justpath`. */
  lemma PqdbWithoutAt(p: Planet, w: Services)
    requires Attr(p, "pqdb") == Some("justpath")
    ensures FindServer(p, w) == w.find("justpath")
    ensures Pqdb(p, w).text == "justpath" + ":" + w.connection(w.find("justpath"))
  {
    PqdbOfJoin(p, w, ["justpath"]);
  }

  /** `a@b@c` names server `a` and path `c`. */
  lemma PqdbSeveralAts(p: Planet, w: Services)
    requires Attr(p, "pqdb") == Some("a@b@c")
    ensures FindServer(p, w) == w.find("a")
    ensures Pqdb(p, w).text == "c" + ":" + w.connection(w.find("a"))
  {
    assert Join(["a", "b", "c"], '@') == "a@b@c";
    PqdbOfJoin(p, w, ["a", "b", "c"]);
  }
}

/**
 `connect_to_database`: the ODBC connection string built from the
 database settings, and the connection attempt. The string is a sequence
 of `KEY=value;` entries; whether the driver accepts it is an input.
 */
module DbConnection {
  import opened Basics
  import opened Seqs
  import opened Config

  /** One `KEY=value;` entry of a connection string. */
  datatype Pair = Pair(key: string, value: string)

  function Entry(p: Pair): string {
    p.key + "=" + p.value + ";"
  }

  /** The entries written one after another. */
  function Render(ps: seq<Pair>): string
    decreases |ps|
  {
    if |ps| == 0 then "" else Entry(ps[0]) + Render(ps[1..])
  }

  /**
   Reading a connection string back: up to each `;` is one entry, split
   at its first `=`. None when the text does not end in `;` or an entry
   has no `=`.
   */
  function Parse(s: string): Option<seq<Pair>>
    decreases |s|
  {
    if |s| == 0 then Some([])
    else
      var i := FirstIndex(s, ';');
      if i == |s| then None
      else
        var entry := s[..i];
        var e := FirstIndex(entry, '=');
        if e == |entry| then None
        else
          var rest :- Parse(s[i + 1..]);
          Some([Pair(entry[..e], entry[e + 1..])] + rest)
  }

  predicate PlainKey(k: string) {
    ';' !in k && '=' !in k
  }

  /** An entry that reads back unambiguously: no `;` anywhere, no `=` in its key. */
  predicate Plain(p: Pair) {
    PlainKey(p.key) && ';' !in p.value
  }

  /** Reading a string of plain entries gives back the entries. */
  lemma {:induction false} ParseRender(ps: seq<Pair>)
    requires forall i :: 0 <= i < |ps| ==> Plain(ps[i])
    ensures Parse(Render(ps)) == Some(ps)
    decreases |ps|
  {
    if |ps| > 0 {
      ParseEntry(ps[0], Render(ps[1..]));
      ParseRender(ps[1..]);
      assert [ps[0]] + ps[1..] == ps;
    }
  }

  /** A plain entry at the front is read first, and reading goes on after its `;`. */
  lemma ParseEntry(p: Pair, rest: string)
    requires Plain(p)
    ensures Parse(Entry(p) + rest) == if Parse(rest).Some? then Some([p] + Parse(rest).value) else None
  {
    var s := Entry(p) + rest;
    var n := |p.key| + 1 + |p.value|;
    assert s == p.key + "=" + p.value + ";" + rest;
    assert s[n] == ';';
    forall j | 0 <= j < n
      ensures s[j] != ';'
    {
      if j < |p.key| {
        assert s[j] == p.key[j];
      } else if j > |p.key| {
        assert s[j] == p.value[j - |p.key| - 1];
      }
    }
    assert FirstIndex(s, ';') == n;
    var entry := s[..n];
    assert entry == p.key + "=" + p.value;
    EntrySplit(p, entry);
    assert s[n + 1..] == rest;
  }

  /** The first `=` of `key=value` is the one after the key. */
  lemma EntrySplit(p: Pair, entry: string)
    requires Plain(p) && entry == p.key + "=" + p.value
    ensures FirstIndex(entry, '=') == |p.key|
    ensures entry[..|p.key|] == p.key && entry[|p.key| + 1..] == p.value
  {
    assert entry[|p.key|] == '=';
    assert forall j :: 0 <= j < |p.key| ==> entry[j] == p.key[j];
  }

  /** The keys of a parsed connection string, in order. */
  function Keys(ps: seq<Pair>): (ks: seq<string>)
    ensures |ks| == |ps| && forall i :: 0 <= i < |ps| ==> ks[i] == ps[i].key
  {
    seq(|ps|, i requires 0 <= i < |ps| => ps[i].key)
  }

  // ---------------------------------------------------------------------
  // connect_to_database

  /** SQL Server authentication is chosen when both credentials are configured. */
  predicate SqlAuth(db: map<string, string>) {
    "username" in db && "password" in db
  }

  /**
   The entries of the connection string: the braced driver, server and
   database, then the credentials or `Trusted_Connection=yes`. None when
   a lookup raises KeyError, which the surrounding `except` turns into a
   failed connection.
   */
  function Fields(db: map<string, string>): (r: Option<seq<Pair>>)
    ensures r.Some? <==> "driver" in db && "server" in db && "database" in db
  {
    if "driver" !in db || "server" !in db || "database" !in db then None
    else
      var common := [Pair("DRIVER", "{" + db["driver"] + "}"), Pair("SERVER", db["server"]), Pair("DATABASE", db["database"])];
      if SqlAuth(db) then Some(common + [Pair("UID", db["username"]), Pair("PWD", db["password"])])
      else Some(common + [Pair("Trusted_Connection", "yes")])
  }

  /** The connection string: the entries written out. */
  function ConnectionString(db: map<string, string>): (r: Option<string>)
    ensures r.Some? <==> "driver" in db && "server" in db && "database" in db
    ensures r.Some? ==> r.value == Render(Fields(db).value)
  {
    var fs :- Fields(db);
    Some(Render(fs))
  }

  /** Rendering distributes over concatenation of entry lists. */
  lemma {:induction false} RenderAppend(a: seq<Pair>, b: seq<Pair>)
    ensures Render(a + b) == Render(a) + Render(b)
    decreases |a|
  {
    if |a| > 0 {
      assert (a + b)[1..] == a[1..] + b;
      RenderAppend(a[1..], b);
    } else {
      assert a + b == b;
    }
  }

  lemma RenderOne(p: Pair)
    ensures Render([p]) == Entry(p)
  {
    assert [p][1..] == [];
  }

  /** The text common to both shapes. */
  lemma CommonText(d: string, server: string, database: string)
    ensures Render([Pair("DRIVER", "{" + d + "}"), Pair("SERVER", server), Pair("DATABASE", database)])
         == "DRIVER={" + d + "};SERVER=" + server + ";DATABASE=" + database + ";"
  {
    var a, b, c := Pair("DRIVER", "{" + d + "}"), Pair("SERVER", server), Pair("DATABASE", database);
    assert [a, b, c] == [a] + [b] + [c];
    RenderAppend([a] + [b], [c]);
    RenderAppend([a], [b]);
    RenderOne(a);
    RenderOne(b);
    RenderOne(c);
    var ea, eb, ec := Entry(a), Entry(b), Entry(c);
    EntryTexts(d, server, database);
    assert "};" + "SERVER=" == "};SERVER=";
    assert ";" + "DATABASE=" == ";DATABASE=";
    assert ea + eb == "DRIVER={" + d + "};SERVER=" + server + ";";
    assert ea + eb + ec == "DRIVER={" + d + "};SERVER=" + server + ";DATABASE=" + database + ";";
  }

  lemma EntryTexts(d: string, server: string, database: string)
    ensures Entry(Pair("DRIVER", "{" + d + "}")) == "DRIVER={" + d + "};"
    ensures Entry(Pair("SERVER", server)) == "SERVER=" + server + ";"
    ensures Entry(Pair("DATABASE", database)) == "DATABASE=" + database + ";"
  {
    assert "DRIVER" + "=" + "{" == "DRIVER={";
  }

  /** The two final shapes: the credentials, or the trusted connection. */
  lemma TailText(u: string, pw: string)
    ensures Render([Pair("UID", u), Pair("PWD", pw)]) == "UID=" + u + ";PWD=" + pw + ";"
    ensures Render([Pair("Trusted_Connection", "yes")]) == "Trusted_Connection=yes;"
  {
    var a, b := Pair("UID", u), Pair("PWD", pw);
    assert [a, b] == [a] + [b];
    RenderAppend([a], [b]);
    RenderOne(a);
    RenderOne(b);
    RenderOne(Pair("Trusted_Connection", "yes"));
  }

  /**
   Under SQL authentication the string is exactly
   `DRIVER={d};SERVER=s;DATABASE=n;UID=u;PWD=p;`.
   */
  lemma SqlConnectionString(db: map<string, string>)
    requires "driver" in db && "server" in db && "database" in db && SqlAuth(db)
    ensures ConnectionString(db) == Some(
      "DRIVER={" + db["driver"] + "};SERVER=" + db["server"] + ";DATABASE=" + db["database"]
      + ";UID=" + db["username"] + ";PWD=" + db["password"] + ";")
  {
    var common := [Pair("DRIVER", "{" + db["driver"] + "}"), Pair("SERVER", db["server"]), Pair("DATABASE", db["database"])];
    CommonText(db["driver"], db["server"], db["database"]);
    RenderAppend(common, [Pair("UID", db["username"]), Pair("PWD", db["password"])]);
    TailText(db["username"], db["password"]);
    var head := "DRIVER={" + db["driver"] + "};SERVER=" + db["server"] + ";DATABASE=" + db["database"];
    assert ";" + "UID=" == ";UID=";
    assert head + ";" + ("UID=" + db["username"] + ";PWD=" + db["password"] + ";")
        == head + ";UID=" + db["username"] + ";PWD=" + db["password"] + ";";
  }

  /**
   Otherwise the string is exactly
   `DRIVER={d};SERVER=s;DATABASE=n;Trusted_Connection=yes;`, whatever
   `trusted_connection` is configured to.
   */
  lemma WindowsConnectionString(db: map<string, string>)
    requires "driver" in db && "server" in db && "database" in db && !SqlAuth(db)
    ensures ConnectionString(db) == Some(
      "DRIVER={" + db["driver"] + "};SERVER=" + db["server"] + ";DATABASE=" + db["database"]
      + ";Trusted_Connection=yes;")
  {
    var common := [Pair("DRIVER", "{" + db["driver"] + "}"), Pair("SERVER", db["server"]), Pair("DATABASE", db["database"])];
    CommonText(db["driver"], db["server"], db["database"]);
    RenderAppend(common, [Pair("Trusted_Connection", "yes")]);
    TailText("", "");
    var head := "DRIVER={" + db["driver"] + "};SERVER=" + db["server"] + ";DATABASE=" + db["database"];
    assert ";" + "Trusted_Connection=yes;" == ";Trusted_Connection=yes;";
    assert head + ";" + "Trusted_Connection=yes;" == head + ";Trusted_Connection=yes;";
  }

  /**
   The keys a connection string carries: `UID` and `PWD` exactly under
   SQL authentication, `Trusted_Connection` exactly otherwise. Stated of
   the parsed string, so it holds whenever the configured values contain
   no `;`.
   */
  lemma ConnectionKeys(db: map<string, string>)
    requires "driver" in db && "server" in db && "database" in db
    requires ';' !in db["driver"] && ';' !in db["server"] && ';' !in db["database"]
    requires SqlAuth(db) ==> ';' !in db["username"] && ';' !in db["password"]
    ensures var ps := Parse(ConnectionString(db).value);
      && ps.Some?
      && (SqlAuth(db) ==> Keys(ps.value) == ["DRIVER", "SERVER", "DATABASE", "UID", "PWD"])
      && (!SqlAuth(db) ==> Keys(ps.value) == ["DRIVER", "SERVER", "DATABASE", "Trusted_Connection"])
      && ("UID" in Keys(ps.value) <==> SqlAuth(db))
      && ("PWD" in Keys(ps.value) <==> SqlAuth(db))
      && ("Trusted_Connection" in Keys(ps.value) <==> !SqlAuth(db))
  {
    var fs := Fields(db).value;
    PlainFields(db);
    ParseRender(fs);
    FieldKeys(db);
  }

  /** The keys the builder writes, in order. */
  lemma FieldKeys(db: map<string, string>)
    requires Fields(db).Some?
    ensures SqlAuth(db) ==> Keys(Fields(db).value) == ["DRIVER", "SERVER", "DATABASE", "UID", "PWD"]
    ensures !SqlAuth(db) ==> Keys(Fields(db).value) == ["DRIVER", "SERVER", "DATABASE", "Trusted_Connection"]
  {
  }

  /** The key names the builder uses hold neither `;` nor `=`. */
  lemma PlainKeys()
    ensures PlainKey("DRIVER") && PlainKey("SERVER") && PlainKey("DATABASE")
    ensures PlainKey("UID") && PlainKey("PWD") && PlainKey("Trusted_Connection")
  {
  }

  /** A braced value holds a `;` only where the value does. */
  lemma BracedPlain(v: string)
    requires ';' !in v
    ensures ';' !in "{" + v + "}"
  {
    var d := "{" + v + "}";
    forall j | 0 <= j < |d| ensures d[j] != ';' {
      if 0 < j < |d| - 1 {
        assert d[j] == v[j - 1];
      }
    }
  }

  /** With no `;` in the configured values, every entry the builder writes is plain. */
  lemma PlainFields(db: map<string, string>)
    requires "driver" in db && "server" in db && "database" in db
    requires ';' !in db["driver"] && ';' !in db["server"] && ';' !in db["database"]
    requires SqlAuth(db) ==> ';' !in db["username"] && ';' !in db["password"]
    ensures forall i :: 0 <= i < |Fields(db).value| ==> Plain(Fields(db).value[i])
  {
    PlainKeys();
    BracedPlain(db["driver"]);
  }

  /** An open connection: the string it was opened with. */
  datatype Connection = Connection(connectionString: string)

  /**
   `connect_to_database()`. A failure of `read_config` is raised before
   the `try` and escapes; a missing key or a string the driver rejects
   (`accepts` is false) is caught and gives None.
   */
  function Connect(config: Result<Settings, ConfigError>, accepts: string -> bool): (r: Result<Option<Connection>, ConfigError>)
    ensures config.Failure? <==> r.Failure?
    ensures config.Failure? ==> r.error == config.error
    ensures r.Success? && r.value.Some? ==>
      && ConnectionString(config.value.database) == Some(r.value.value.connectionString)
      && accepts(r.value.value.connectionString)
    ensures config.Success? && r.value.None? ==>
      var cs := ConnectionString(config.value.database);
      cs.None? || !accepts(cs.value)
  {
    var settings :- config;
    match ConnectionString(settings.database)
    case None => Success(None)
    case Some(cs) => if accepts(cs) then Success(Some(Connection(cs))) else Success(None)
  }

  /**
   Read from a complete configuration, the connection string always
   builds, and it uses SQL authentication exactly when the database
   section configures both a username and a password.
   */
  lemma ConfiguredConnection(fileExists: bool, ini: Ini, creatable: set<string>, accepts: string -> bool)
    requires fileExists && Complete(ini, creatable)
    ensures var config := ReadConfig(fileExists, ini, creatable);
      && config.Success?
      && ConnectionString(config.value.database).Some?
      && (SqlAuth(config.value.database) <==> "username" in ini[DatabaseSection] && "password" in ini[DatabaseSection])
      && (var cs := ConnectionString(config.value.database).value;
          Connect(config, accepts) == Success(if accepts(cs) then Some(Connection(cs)) else None))
  {
    ReadConfigSucceeds(fileExists, ini, creatable);
    var config := ReadConfig(fileExists, ini, creatable);
    assert DatabaseOptions[0] == "server" && DatabaseOptions[1] == "database" && DatabaseOptions[2] == "driver";
  }
}

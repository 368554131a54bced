/**
 `read_config`: the application settings read from `config.ini`. The
 parsed file is a map from section names to option maps; configparser
 stores option names folded to lower case and folds the names it is asked
 for in the same way, so a lookup of `UPLOAD_DIR` finds `upload_dir`.
 Whether the file exists and which directories `os.makedirs` can create
 are inputs.
 */
module Config {
  import opened Basics

  /** A parsed ini file: section name to (folded option name to value). */
  type Ini = map<string, map<string, string>>

  /** The exceptions `read_config` raises. */
  datatype ConfigError =
    | ConfigNotFound          // FileNotFoundError: no config.ini
    | MissingKey(key: string) // ValueError wrapping the KeyError for a section or option
    | DirectoryError(path: string) // the OSError of os.makedirs, which is not caught

  /** The returned dictionary: its "paths" and "database" sub-dictionaries. */
  datatype Settings = Settings(paths: map<string, string>, database: map<string, string>)

  const PathsSection: string := "PATHS"
  const DatabaseSection: string := "database"

  /** The option names asked of the PATHS section, in the order they are read. */
  const PathOptions: seq<string> := ["UPLOAD_DIR", "IMAGE_DIR", "MODEL_PATH"]

  /** The option names asked of the database section, in the order they are read. */
  const DatabaseOptions: seq<string> := ["server", "database", "driver", "table_name"]

  /** `str.lower` on ASCII letters, the folding configparser applies to option names. */
  function Fold(s: string): (t: string)
    ensures |t| == |s|
    ensures forall i :: 0 <= i < |s| ==> t[i] == if 'A' <= s[i] <= 'Z' then (s[i] as int + 32) as char else s[i]
  {
    seq(|s|, i requires 0 <= i < |s| => if 'A' <= s[i] <= 'Z' then (s[i] as int + 32) as char else s[i])
  }

  /** The option `option` is present in section `section`. */
  predicate Has(ini: Ini, section: string, option: string) {
    section in ini && Fold(option) in ini[section]
  }

  /** `configuration[section][option]`; KeyError names the missing section or option. */
  function Get(ini: Ini, section: string, option: string): (r: Result<string, ConfigError>)
    ensures r.Success? <==> Has(ini, section, option)
    ensures r.Success? ==> r.value == ini[section][Fold(option)]
    ensures r.Failure? ==> r.error == MissingKey(if section in ini then option else section)
  {
    if section !in ini then Failure(MissingKey(section))
    else if Fold(option) !in ini[section] then Failure(MissingKey(option))
    else Success(ini[section][Fold(option)])
  }

  /**
   `read_config()`. The paths are read, both directories created, then
   the database options read and the authentication options chosen.
   */
  function ReadConfig(fileExists: bool, ini: Ini, creatable: set<string>): (r: Result<Settings, ConfigError>)
    ensures r == Failure(ConfigNotFound) <==> !fileExists
    ensures r.Success? ==> Complete(ini, creatable)
    ensures r.Success? ==> r.value.paths == map[
      "upload_dir" := ini[PathsSection][Fold("UPLOAD_DIR")],
      "image_dir" := ini[PathsSection][Fold("IMAGE_DIR")],
      "model_path" := ini[PathsSection][Fold("MODEL_PATH")]]
    ensures r.Success? ==> forall i :: 0 <= i < |DatabaseOptions| ==>
      && DatabaseOptions[i] in r.value.database
      && r.value.database[DatabaseOptions[i]] == ini[DatabaseSection][Fold(DatabaseOptions[i])]
    ensures r.Success? ==> DatabaseSection in ini
    // the credentials are copied only as a pair, and then without trusted_connection
    ensures r.Success? ==> var db, section := r.value.database, ini[DatabaseSection];
      && ("username" in section && "password" in section ==>
            && "username" in db && db["username"] == section["username"]
            && "password" in db && db["password"] == section["password"]
            && "trusted_connection" !in db)
      && (!("username" in section && "password" in section) ==>
            && "username" !in db && "password" !in db && "trusted_connection" in db
            && db["trusted_connection"] == (if "trusted_connection" in section then section["trusted_connection"] else "yes"))
  {
    if !fileExists then Failure(ConfigNotFound)
    else
      var upload :- Get(ini, PathsSection, "UPLOAD_DIR");
      var image :- Get(ini, PathsSection, "IMAGE_DIR");
      var model :- Get(ini, PathsSection, "MODEL_PATH");
      if upload !in creatable then Failure(DirectoryError(upload))
      else if image !in creatable then Failure(DirectoryError(image))
      else
        var server :- Get(ini, DatabaseSection, "server");
        var database :- Get(ini, DatabaseSection, "database");
        var driver :- Get(ini, DatabaseSection, "driver");
        var table :- Get(ini, DatabaseSection, "table_name");
        var section := ini[DatabaseSection];
        var base := map["server" := server, "database" := database, "driver" := driver, "table_name" := table];
        Success(Settings(
          map["upload_dir" := upload, "image_dir" := image, "model_path" := model],
          base + Authentication(section)))
  }

  /**
   The authentication options copied into the database settings: both
   credentials when both are present, otherwise `trusted_connection`,
   defaulting to "yes".
   */
  function Authentication(section: map<string, string>): (auth: map<string, string>)
    // the credentials come as a pair, and trusted_connection exactly without them
    ensures "username" in auth <==> "password" in auth
    ensures "trusted_connection" in auth <==> "username" !in auth
    // merged after the four database options, it overwrites none of them
    ensures forall i :: 0 <= i < |DatabaseOptions| ==> DatabaseOptions[i] !in auth
    ensures "username" in section && "password" in section ==>
      auth == map["username" := section["username"], "password" := section["password"]]
    ensures !("username" in section && "password" in section) ==>
      auth == map["trusted_connection" := if "trusted_connection" in section then section["trusted_connection"] else "yes"]
  {
    if "username" in section && "password" in section then
      map["username" := section["username"], "password" := section["password"]]
    else
      map["trusted_connection" := if "trusted_connection" in section then section["trusted_connection"] else "yes"]
  }

  /**
   Everything `read_config` needs: every option it reads is present and
   both directories can be created.
   */
  predicate PathsRead(ini: Ini) {
    Has(ini, PathsSection, "UPLOAD_DIR") && Has(ini, PathsSection, "IMAGE_DIR") && Has(ini, PathsSection, "MODEL_PATH")
  }

  ghost predicate Complete(ini: Ini, creatable: set<string>) {
    && PathsRead(ini)
    && (forall i :: 0 <= i < |DatabaseOptions| ==> Has(ini, DatabaseSection, DatabaseOptions[i]))
    && ini[PathsSection][Fold("UPLOAD_DIR")] in creatable
    && ini[PathsSection][Fold("IMAGE_DIR")] in creatable
  }

  /** The settings are read exactly when the file exists and is complete. */
  lemma ReadConfigSucceeds(fileExists: bool, ini: Ini, creatable: set<string>)
    ensures ReadConfig(fileExists, ini, creatable).Success? <==> fileExists && Complete(ini, creatable)
  {
    if fileExists && Complete(ini, creatable) {
      assert Has(ini, DatabaseSection, DatabaseOptions[0]) && Has(ini, DatabaseSection, DatabaseOptions[1]);
      assert Has(ini, DatabaseSection, DatabaseOptions[2]) && Has(ini, DatabaseSection, DatabaseOptions[3]);
    }
  }

  /**
   A missing path option is reported before anything else is done, naming
   the first one missing in reading order (or the section, when it is
   missing altogether).
   */
  lemma MissingPathOption(ini: Ini, creatable: set<string>, i: nat)
    requires i < |PathOptions| && !Has(ini, PathsSection, PathOptions[i])
    requires forall j :: 0 <= j < i ==> Has(ini, PathsSection, PathOptions[j])
    ensures ReadConfig(true, ini, creatable) ==
      Failure(MissingKey(if PathsSection in ini then PathOptions[i] else PathsSection))
  {
    if i > 0 {
      assert Has(ini, PathsSection, PathOptions[0]);
    }
    if i > 1 {
      assert Has(ini, PathsSection, PathOptions[1]);
    }
  }

  /**
   With the paths read and the directories created, a missing database
   option is reported, naming the first one missing in reading order (or
   the section).
   */
  lemma MissingDatabaseOption(ini: Ini, creatable: set<string>, i: nat)
    requires PathsRead(ini)
    requires ini[PathsSection][Fold("UPLOAD_DIR")] in creatable && ini[PathsSection][Fold("IMAGE_DIR")] in creatable
    requires i < |DatabaseOptions| && !Has(ini, DatabaseSection, DatabaseOptions[i])
    requires forall j :: 0 <= j < i ==> Has(ini, DatabaseSection, DatabaseOptions[j])
    ensures ReadConfig(true, ini, creatable) ==
      Failure(MissingKey(if DatabaseSection in ini then DatabaseOptions[i] else DatabaseSection))
  {
    assert forall j :: 0 <= j < i ==> Has(ini, DatabaseSection, DatabaseOptions[j]);
    if i > 0 { assert Has(ini, DatabaseSection, DatabaseOptions[0]); }
    if i > 1 { assert Has(ini, DatabaseSection, DatabaseOptions[1]); }
    if i > 2 { assert Has(ini, DatabaseSection, DatabaseOptions[2]); }
  }
}

/**
 * The application's settings record and its dictionary form: `AppConfig`,
 * `to_dict`, `from_dict`, and the decision `load_config` takes on what it
 * finds in the settings file.
 */
module ConfigManager {
  import opened Wrappers
  import Strings

  /** A decoded JSON value, as `json.load` returns it. */
  datatype Json =
    | JNull
    | JBool(b: bool)
    | JInt(i: int)
    | JFloat(x: real)
    | JStr(s: string)
    | JArr(items: seq<Json>)
    | JObj(fields: map<string, Json>)

  datatype AppConfig = AppConfig(
    baseDirectory: string,
    autoFetchInterval: int,
    defaultTheme: string,
    lastActiveRepo: string,
    gitUserName: string,
    gitUserEmail: string,
    preferences: map<string, Json>)

  /** `AppConfig()`: the field defaults. */
  const DEFAULT: AppConfig := AppConfig("", 15, "dark", "", "", "", map[])

  const BASE_DIRECTORY: string := "base_directory"
  const AUTO_FETCH_INTERVAL: string := "auto_fetch_interval"
  const DEFAULT_THEME: string := "default_theme"
  const LAST_ACTIVE_REPO: string := "last_active_repo"
  const GIT_USER_NAME: string := "git_user_name"
  const GIT_USER_EMAIL: string := "git_user_email"
  const PREFERENCES: string := "preferences"

  const KEYS: set<string> := {BASE_DIRECTORY, AUTO_FETCH_INTERVAL, DEFAULT_THEME,
    LAST_ACTIVE_REPO, GIT_USER_NAME, GIT_USER_EMAIL, PREFERENCES}

  /** The keys of the fields declared `str`. */
  const STRING_KEYS: set<string> := {BASE_DIRECTORY, DEFAULT_THEME, LAST_ACTIVE_REPO, GIT_USER_NAME, GIT_USER_EMAIL}

  datatype ConfigError =
    | NotAnInteger(value: Json)          // `int(...)` raised on the stored interval
    | WrongType(key: string, value: Json) // a known key holds a value of another JSON type
    | NotAnObject(doc: Json)             // the document is not a mapping, so `.get` raised
    | NotUtf8                            // reading the file raised `UnicodeDecodeError`

  /** `to_dict()`: exactly the seven known keys. */
  function ToDict(c: AppConfig): (d: map<string, Json>)
    ensures d.Keys == KEYS
  {
    map[BASE_DIRECTORY := JStr(c.baseDirectory),
        AUTO_FETCH_INTERVAL := JInt(c.autoFetchInterval),
        DEFAULT_THEME := JStr(c.defaultTheme),
        LAST_ACTIVE_REPO := JStr(c.lastActiveRepo),
        GIT_USER_NAME := JStr(c.gitUserName),
        GIT_USER_EMAIL := JStr(c.gitUserEmail),
        PREFERENCES := JObj(c.preferences)]
  }

  /** Conversion of a real to `int` by truncation toward zero, as `int(x)` does. */
  function Truncate(x: real): (n: int)
    ensures x >= 0.0 ==> 0.0 <= n as real <= x < n as real + 1.0
    ensures x < 0.0 ==> n as real - 1.0 < x <= n as real <= 0.0
  {
    if x >= 0.0 then x.Floor else -((-x).Floor)
  }

  predicate IsDigit(c: char) {
    '0' <= c <= '9'
  }

  /** The value of a run of decimal digits. */
  function DigitsValue(ds: string): int
    requires forall k :: 0 <= k < |ds| ==> IsDigit(ds[k])
    decreases |ds|
  {
    if ds == [] then 0
    else DigitsValue(ds[..|ds| - 1]) * 10 + (ds[|ds| - 1] as int - '0' as int)
  }

  /** An optionally signed run of ASCII digits. */
  function ParseDecimal(s: string): (r: Option<int>)
    ensures r.Some? ==> s != [] && s[|s| - 1] in "0123456789"
  {
    var sign := if s != [] && s[0] == '-' then -1 else 1;
    var digits := if s != [] && (s[0] == '-' || s[0] == '+') then s[1..] else s;
    if digits != [] && forall k :: 0 <= k < |digits| ==> IsDigit(digits[k])
    then Some(sign * DigitsValue(digits))
    else None
  }

  function DigitChar(d: int): (c: char)
    requires 0 <= d < 10
    ensures IsDigit(c) && c as int - '0' as int == d
  {
    ('0' as int + d) as char
  }

  /** The decimal digits of `n`, most significant first, without leading zeros. */
  function NaturalText(n: nat): (r: string)
    ensures r != [] && forall k :: 0 <= k < |r| ==> IsDigit(r[k])
    decreases n
  {
    if n < 10 then [DigitChar(n)] else NaturalText(n / 10) + [DigitChar(n % 10)]
  }

  /** `str(n)` for an integer: a minus sign for a negative number, then its digits. */
  function DecimalText(n: int): string {
    if n < 0 then "-" + NaturalText(-n) else NaturalText(n)
  }

  lemma {:induction false} NaturalTextValue(n: nat)
    ensures DigitsValue(NaturalText(n)) == n
    decreases n
  {
    if n >= 10 {
      var t := NaturalText(n);
      assert t[..|t| - 1] == NaturalText(n / 10);
      NaturalTextValue(n / 10);
    }
  }

  /** Parsing reads back every integer written in decimal. */
  lemma ParseDecimalText(n: int)
    ensures ParseDecimal(DecimalText(n)) == Some(n)
  {
    if n < 0 {
      NaturalTextValue(-n);
      assert DecimalText(n)[1..] == NaturalText(-n);
    } else {
      NaturalTextValue(n);
    }
  }

  /** A hand-edited interval written as a string with blanks around it reads as its number. */
  lemma IntValueOfPaddedText()
    ensures IntValue(JStr(" 10 ")) == Some(10)
  {
    assert Strings.StripLeft(" 10 ") == "10 ";
    assert Strings.StripRight("10 ") == "10";
    assert Strings.Strip(" 10 ") == "10";
    assert "10"[..1] == "1";
    assert DigitsValue("10") == 10;
    assert ParseDecimal("10") == Some(10);
  }

  /** A sign alone, or nothing at all, is not a number. */
  lemma ParseDecimalRefusesSignsAlone()
    ensures ParseDecimal("") == None && ParseDecimal("+") == None && ParseDecimal("-") == None
  {
  }

  /** `int(v)` for a decoded JSON value; `None` where Python raises. Strings are stripped of whitespace first. */
  function IntValue(v: Json): (r: Option<int>)
    ensures v.JInt? ==> r == Some(v.i)
    ensures v.JNull? || v.JArr? || v.JObj? ==> r == None
  {
    match v
    case JInt(i) => Some(i)
    case JBool(b) => Some(if b then 1 else 0)
    case JFloat(x) => Some(Truncate(x))
    case JStr(s) => ParseDecimal(Strings.Strip(s))
    case _ => None
  }

  /** `data.get(key, default)` for a field declared `str`. */
  function GetString(data: map<string, Json>, key: string, default: string): Result<string, ConfigError> {
    if key !in data then Success(default)
    else match data[key]
      case JStr(s) => Success(s)
      case v => Failure(WrongType(key, v))
  }

  /** `from_dict(data)`: each known key read on its own, with its own default. */
  function FromDict(data: map<string, Json>): Result<AppConfig, ConfigError>
  {
    var baseDirectory :- GetString(data, BASE_DIRECTORY, DEFAULT.baseDirectory);
    var interval := if AUTO_FETCH_INTERVAL in data then data[AUTO_FETCH_INTERVAL] else JInt(DEFAULT.autoFetchInterval);
    var autoFetchInterval :- match IntValue(interval)
      case Some(n) => Success(n)
      case None => Failure(NotAnInteger(interval));
    var defaultTheme :- GetString(data, DEFAULT_THEME, DEFAULT.defaultTheme);
    var lastActiveRepo :- GetString(data, LAST_ACTIVE_REPO, DEFAULT.lastActiveRepo);
    var gitUserName :- GetString(data, GIT_USER_NAME, DEFAULT.gitUserName);
    var gitUserEmail :- GetString(data, GIT_USER_EMAIL, DEFAULT.gitUserEmail);
    var preferences :- if PREFERENCES !in data then Success(DEFAULT.preferences)
      else match data[PREFERENCES]
        case JObj(m) => Success(m)
        case v => Failure(WrongType(PREFERENCES, v));
    Success(AppConfig(baseDirectory, autoFetchInterval, defaultTheme, lastActiveRepo,
                      gitUserName, gitUserEmail, preferences))
  }

  /**
   * `from_dict(data)` succeeds exactly when every `str` field present holds
   * a string, a present interval converts with `int()` and present
   * preferences are an object.
   */
  lemma FromDictSucceeds(data: map<string, Json>)
    ensures FromDict(data).Success? <==>
              (forall k :: k in STRING_KEYS && k in data ==> data[k].JStr?)
              && (AUTO_FETCH_INTERVAL in data ==> IntValue(data[AUTO_FETCH_INTERVAL]).Some?)
              && (PREFERENCES in data ==> data[PREFERENCES].JObj?)
  {
  }

  /**
   * A successful `from_dict(data)` keeps every present key other than the
   * interval as it is, and sets the interval to `int()` of its value.
   */
  lemma FromDictKeepsPresent(data: map<string, Json>)
    requires FromDict(data).Success?
    ensures forall k :: k in KEYS && k in data && k != AUTO_FETCH_INTERVAL ==> ToDict(FromDict(data).value)[k] == data[k]
    ensures AUTO_FETCH_INTERVAL in data ==> IntValue(data[AUTO_FETCH_INTERVAL]) == Some(FromDict(data).value.autoFetchInterval)
  {
  }

  /** A successful `from_dict(data)` gives every absent key its default. */
  lemma FromDictDefaultsAbsent(data: map<string, Json>)
    requires FromDict(data).Success?
    ensures forall k :: k in KEYS && k !in data ==> ToDict(FromDict(data).value)[k] == ToDict(DEFAULT)[k]
  {
    var c := FromDict(data).value;
    forall k | k in KEYS && k !in data
      ensures ToDict(c)[k] == ToDict(DEFAULT)[k]
    {
      if k == BASE_DIRECTORY {
        assert c.baseDirectory == DEFAULT.baseDirectory;
      } else if k == AUTO_FETCH_INTERVAL {
        assert c.autoFetchInterval == DEFAULT.autoFetchInterval;
      } else if k == DEFAULT_THEME {
        assert c.defaultTheme == DEFAULT.defaultTheme;
      } else if k == LAST_ACTIVE_REPO {
        assert c.lastActiveRepo == DEFAULT.lastActiveRepo;
      } else if k == GIT_USER_NAME {
        assert c.gitUserName == DEFAULT.gitUserName;
      } else if k == GIT_USER_EMAIL {
        assert c.gitUserEmail == DEFAULT.gitUserEmail;
      } else {
        assert c.preferences == DEFAULT.preferences;
      }
    }
  }

  /** `from_dict(to_dict(c)) == c`, preferences included, for every configuration. */
  lemma FromDictToDict(c: AppConfig)
    ensures FromDict(ToDict(c)) == Success(c)
  {
  }

  /** `from_dict({})` is `AppConfig()`. */
  lemma FromDictEmpty()
    ensures FromDict(map[]) == Success(DEFAULT)
  {
  }

  /** Keys other than the seven known ones have no effect. */
  lemma FromDictIgnoresUnknownKeys(data: map<string, Json>)
    ensures FromDict(data) == FromDict(map k | k in data && k in KEYS :: data[k])
  {
  }

  /** `c` with the field stored under `key` put back to its default. */
  function ResetField(c: AppConfig, key: string): AppConfig {
    if key == BASE_DIRECTORY then c.(baseDirectory := DEFAULT.baseDirectory)
    else if key == AUTO_FETCH_INTERVAL then c.(autoFetchInterval := DEFAULT.autoFetchInterval)
    else if key == DEFAULT_THEME then c.(defaultTheme := DEFAULT.defaultTheme)
    else if key == LAST_ACTIVE_REPO then c.(lastActiveRepo := DEFAULT.lastActiveRepo)
    else if key == GIT_USER_NAME then c.(gitUserName := DEFAULT.gitUserName)
    else if key == GIT_USER_EMAIL then c.(gitUserEmail := DEFAULT.gitUserEmail)
    else if key == PREFERENCES then c.(preferences := DEFAULT.preferences)
    else c
  }

  /** Dropping one known key resets that field, and only that field, to its default. */
  lemma FromDictFallsBackPerKey(data: map<string, Json>, key: string)
    requires FromDict(data).Success? && key in KEYS
    ensures FromDict(data - {key}) == Success(ResetField(FromDict(data).value, key))
  {
    if key == BASE_DIRECTORY {
    } else if key == AUTO_FETCH_INTERVAL {
    } else if key == DEFAULT_THEME {
    } else if key == LAST_ACTIVE_REPO {
    } else if key == GIT_USER_NAME {
    } else if key == GIT_USER_EMAIL {
    } else {
    }
  }

  /** What `load_config` finds at the settings file path. */
  datatype FileState =
    | Missing                 // the file does not exist
    | Unreadable              // opening or reading it raises `OSError`
    | NotJson                 // its text is not JSON (`JSONDecodeError`)
    | BadEncoding             // its bytes are not UTF-8 (`UnicodeDecodeError`)
    | Parsed(doc: Json)       // `json.load` returned `doc`

  /** The configuration loaded, and whether the file is to be renamed to `config.corrupted`. */
  datatype Loaded = Loaded(config: AppConfig, moveToBackup: bool)

  /** The file `save_config(c)` leaves behind, as `json.load` reads it back. */
  function Saved(c: AppConfig): (f: FileState)
    ensures f.Parsed? && f.doc.JObj? && f.doc.fields.Keys == KEYS
  {
    Parsed(JObj(ToDict(c)))
  }

  /**
   * `load_config()`: defaults for a missing file; defaults and a backup for a
   * file that cannot be read or decoded; `from_dict` of a decoded mapping.
   * A non-UTF-8 file and a decoded non-mapping escape the handler.
   */
  function LoadConfig(file: FileState): (r: Result<Loaded, ConfigError>)
    ensures file.Missing? ==> r == Success(Loaded(DEFAULT, false))
    ensures file.Unreadable? || file.NotJson? ==> r == Success(Loaded(DEFAULT, true))
    ensures r.Success? && r.value.moveToBackup ==> r.value.config == DEFAULT
    ensures r.Success? && !r.value.moveToBackup && !file.Missing? ==>
              file.Parsed? && file.doc.JObj? && FromDict(file.doc.fields) == Success(r.value.config)
    ensures file.BadEncoding? ==> r == Failure(NotUtf8)
    ensures file.Parsed? && !file.doc.JObj? ==> r == Failure(NotAnObject(file.doc))
    ensures file.Parsed? && file.doc.JObj? ==>
              match FromDict(file.doc.fields)
              case Success(c) => r == Success(Loaded(c, false))
              case Failure(e) => r == Failure(e)
  {
    match file
    case Missing => Success(Loaded(DEFAULT, false))
    case Unreadable => Success(Loaded(DEFAULT, true))
    case NotJson => Success(Loaded(DEFAULT, true))
    case BadEncoding => Failure(NotUtf8)
    case Parsed(doc) =>
      match doc
      case JObj(data) =>
        var c :- FromDict(data);
        Success(Loaded(c, false))
      case _ => Failure(NotAnObject(doc))
  }

  /** Saving then loading gives back the configuration saved. */
  lemma LoadSaved(c: AppConfig)
    ensures LoadConfig(Saved(c)) == Success(Loaded(c, false))
  {
    FromDictToDict(c);
  }
}

/**
 * The settings file shared by both variants of `AdvertisementHandler.load`:
 * a first line holding the current profile name, then the JSON of the
 * profile-to-levels mapping. The JSON codec (`ujson.load`, `ujson.dumps`) is
 * not modelled: it is passed in as a pair of functions.
 */
module SettingsFile {
  import opened Wrappers

  /** Profile name to brightness levels; the handler uses only how many levels a profile has. */
  type Config = map<string, seq<real>>

  const DefaultSetting: string := "default"
  const DefaultConfig: Config := map["default" := [0.25, 0.5, 0.75, 1.0]]

  /** `f.readline()` on text `s`: the first line with its line feed, and the text after it. */
  function ReadLine(s: string): (r: (string, string))
    ensures r.0 + r.1 == s
    ensures s != "" ==> r.0 != ""
    ensures forall i :: 0 <= i < |r.0| - 1 ==> r.0[i] != '\n'
    ensures r.1 != "" ==> r.0[|r.0| - 1] == '\n'
  {
    if s == "" then ("", "")
    else if s[0] == '\n' then ("\n", s[1..])
    else
      var (line, rest) := ReadLine(s[1..]);
      ([s[0]] + line, rest)
  }

  /** The characters MicroPython's `str.rstrip()` removes. */
  predicate IsSpace(c: char) {
    c == ' ' || ('\t' <= c <= '\r')
  }

  /** `s.rstrip()`: `s` without its trailing whitespace. */
  function RStrip(s: string): (r: string)
    ensures |r| <= |s| && r == s[..|r|]
    ensures r == "" || !IsSpace(r[|r| - 1])
    ensures forall i :: |r| <= i < |s| ==> IsSpace(s[i])
  {
    if s != "" && IsSpace(s[|s| - 1]) then RStrip(s[..|s| - 1]) else s
  }

  /** A name that survives `rstrip()` and fits on one line. */
  predicate IsNameLine(name: string) {
    '\n' !in name && (name == "" || !IsSpace(name[|name| - 1]))
  }

  /** A name written as a line, followed by anything, reads back as that line. */
  lemma {:induction false} ReadLineAfterName(name: string, rest: string)
    requires '\n' !in name
    ensures ReadLine(name + "\n" + rest) == (name + "\n", rest)
  {
    if name != "" {
      var s := name + "\n" + rest;
      assert s[0] == name[0] && name[0] != '\n';
      assert s[1..] == name[1..] + "\n" + rest;
      ReadLineAfterName(name[1..], rest);
      assert [name[0]] + (name[1..] + "\n") == name + "\n";
    }
  }

  /** Writing a name line and reading it back with `readline().rstrip()` gives the name again. */
  lemma NameLineRoundTrip(name: string, rest: string)
    requires IsNameLine(name)
    ensures RStrip(ReadLine(name + "\n" + rest).0) == name
  {
    ReadLineAfterName(name, rest);
    assert (name + "\n")[..|name|] == name;
  }

  /** Without `rstrip()`, the name read back keeps its line feed. */
  lemma NameLineKeepsNewline(name: string, rest: string)
    requires '\n' !in name
    ensures ReadLine(name + "\n" + rest).0 == name + "\n" != name
  {
    ReadLineAfterName(name, rest);
  }

  /** What the `try` branch of `load` reads: the first line and the decoded rest, or nothing if either fails. */
  function ReadSettings(content: Option<string>, decode: string -> Option<Config>): Option<(string, Config)> {
    match content
    case None => None
    case Some(text) =>
      var (line, rest) := ReadLine(text);
      match decode(rest)
      case None => None
      case Some(config) => Some((line, config))
  }

  /** What the `except` branch writes: the name line `"default\n"`, then the JSON of the default mapping. */
  function BootstrapContent(encode: Config -> string): string {
    DefaultSetting + "\n" + encode(DefaultConfig)
  }

  /** The profile selection and mapping a handler is built with. */
  datatype Settings = Settings(currSetting: string, config: Config)

  /** The settings `load` builds the handler with, and the settings file afterwards. */
  datatype Loaded = Loaded(settings: Settings, file: string)

  /**
   * `AdvertisementHandler.load` on a settings file with the given content
   * (`None` when the file is missing). `stripName` tells the variant that
   * strips the name line (abc.py) from the one that keeps it (receiver.py).
   */
  function LoadSettings(content: Option<string>, stripName: bool, encode: Config -> string, decode: string -> Option<Config>): Loaded {
    match ReadSettings(content, decode)
    case Some((line, config)) =>
      Loaded(Settings(if stripName then RStrip(line) else line, config), content.value)
    case None =>
      Loaded(Settings(DefaultSetting, DefaultConfig), BootstrapContent(encode))
  }

  /** A JSON codec under which the default mapping survives `dumps` then `load`. */
  predicate DefaultRoundTrips(encode: Config -> string, decode: string -> Option<Config>) {
    decode(encode(DefaultConfig)) == Some(DefaultConfig)
  }

  /** A freshly bootstrapped file reads back as the line `"default\n"` and the default mapping. */
  lemma BootstrapReadBack(encode: Config -> string, decode: string -> Option<Config>)
    requires DefaultRoundTrips(encode, decode)
    ensures ReadSettings(Some(BootstrapContent(encode)), decode) == Some((DefaultSetting + "\n", DefaultConfig))
  {
    ReadLineAfterName(DefaultSetting, encode(DefaultConfig));
  }

  /** A bootstrapped handler selects a profile its mapping has. */
  lemma BootstrapSelectsKnownProfile(content: Option<string>, stripName: bool, encode: Config -> string, decode: string -> Option<Config>)
    requires ReadSettings(content, decode).None?
    ensures var s := LoadSettings(content, stripName, encode, decode).settings;
      s.currSetting == DefaultSetting && s.currSetting in s.config && |s.config[s.currSetting]| == 4
  {
  }

  /**
   * With the name line stripped, loading is idempotent: loading the file that
   * a load leaves behind gives the same settings and leaves the file alone.
   */
  lemma StrippedLoadIdempotent(content: Option<string>, encode: Config -> string, decode: string -> Option<Config>)
    requires DefaultRoundTrips(encode, decode)
    ensures var first := LoadSettings(content, true, encode, decode);
      LoadSettings(Some(first.file), true, encode, decode) == first
  {
    var first := LoadSettings(content, true, encode, decode);
    if ReadSettings(content, decode).None? {
      BootstrapReadBack(encode, decode);
      NameLineRoundTrip(DefaultSetting, encode(DefaultConfig));
      assert RStrip(DefaultSetting + "\n") == DefaultSetting;
    }
  }

  /**
   * Without the strip, a load that bootstraps selects `"default"`, and the
   * next load of the same file selects `"default\n"`, which the mapping lacks.
   */
  lemma UnstrippedReloadLosesProfile(content: Option<string>, encode: Config -> string, decode: string -> Option<Config>)
    requires DefaultRoundTrips(encode, decode)
    requires ReadSettings(content, decode).None?
    ensures var first := LoadSettings(content, false, encode, decode);
      var second := LoadSettings(Some(first.file), false, encode, decode);
      && first.settings == Settings(DefaultSetting, DefaultConfig)
      && second.settings == Settings(DefaultSetting + "\n", DefaultConfig)
      && second.settings.currSetting !in second.settings.config
  {
    BootstrapReadBack(encode, decode);
  }
}

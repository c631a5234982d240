/**
 The version-control config merge of `configure_git` (system_setup.py:138-176).
 `~/.gitconfig` is read into a `ConfigParser`, a map from section names to maps from
 option names to values. The merge makes sure five sections exist, asks the operator
 for `user.name` and `user.email` only when they are missing, sets four defaults only
 where the option is missing, and writes the config back; it then appends `.DS_Store`
 to `~/.gitignore_global`, on every run.

 `GitMerge` states the outcome as a function of the old config, the old ignore file and
 the answers the operator would give; `ConfigureGit` performs it on a `ConfigParser`
 object the way the source does, and the lemmas state what the merge promises: nothing
 is removed or overwritten, exactly the missing settings are added, the prompts happen
 only for a missing identity, and a second run changes nothing but the ignore file.
 */
module GitConfig {
  import opened Wrappers
  import Text

  /** The options of one section. */
  type Options = map<string, string>

  /** A parsed config: section name to options. */
  type Sections = map<string, Options>

  /** ConfigParser's `has_option(section, option)`: false when the section is missing. */
  predicate HasOption(c: Sections, section: string, option: string)
  {
    section in c && option in c[section]
  }

  /** The value of an option, if it is set. */
  function Lookup(c: Sections, section: string, option: string): Option<string>
  {
    if HasOption(c, section, option) then Some(c[section][option]) else None
  }

  /** The first of two optional values that is present. */
  function OrElse(a: Option<string>, b: Option<string>): Option<string>
  {
    if a.Some? then a else b
  }

  /** The sections the merge makes sure exist. */
  const RequiredSections: seq<string> := ["user", "core", "push", "diff", "color"]

  /** A (section, option, value) triple the merge wants present. */
  datatype Setting = Setting(section: string, option: string, value: string)

  /** The four defaults, each set only where its option is missing. */
  const Defaults: seq<Setting> := [
    Setting("core", "excludesfile", "~/.gitignore_global"),
    Setting("push", "default", "current"),
    Setting("diff", "renames", "true"),
    Setting("color", "ui", "true")
  ]

  /** What every run appends to the global ignore file. */
  const IgnoreEntry: string := "\n.DS_Store\n"

  /** The two operator prompts, for the name and for the email address. */
  datatype Prompt = AskName | AskEmail

  /** The outcome of one run: the config written back, the new ignore file text,
      and the prompts shown, in order. */
  datatype GitRun = GitRun(config: Sections, ignore: string, prompts: seq<Prompt>)

  /** ConfigParser's `add_section`, which the library refuses for an existing section. */
  function WithSection(c: Sections, section: string): (r: Sections)
    requires section !in c
    ensures forall s :: s in r <==> s in c || s == section
    ensures forall s, o :: Lookup(r, s, o) == Lookup(c, s, o)
  {
    c[section := map[]]
  }

  /** ConfigParser's `set`, which the library refuses when the section is missing. */
  function WithOption(c: Sections, section: string, option: string, value: string): (r: Sections)
    requires section in c
    ensures r.Keys == c.Keys
    ensures Lookup(r, section, option) == Some(value)
    ensures forall s, o :: s != section || o != option ==> Lookup(r, s, o) == Lookup(c, s, o)
  {
    c[section := c[section][option := value]]
  }

  /** One pass of the section loop: add the section if it is missing. */
  function EnsureSection(c: Sections, section: string): (r: Sections)
    ensures forall s :: s in r <==> s in c || s == section
    ensures forall s, o :: Lookup(r, s, o) == Lookup(c, s, o)
  {
    if section in c then c else WithSection(c, section)
  }

  /** The section loop over `names` in order. Afterwards every name is a section, no
      other section appears, and no option is added, removed or changed. */
  function EnsureSections(c: Sections, names: seq<string>): (r: Sections)
    ensures forall s :: s in r <==> s in c || s in names
    ensures forall s, o :: Lookup(r, s, o) == Lookup(c, s, o)
    decreases |names|
  {
    if names == [] then c
    else
      var before := EnsureSections(c, names[..|names| - 1]);
      assert forall s :: s in names <==> s in names[..|names| - 1] || s == names[|names| - 1];
      EnsureSection(before, names[|names| - 1])
  }

  /** A config holding the five required sections holds every section the rest of the
      merge writes to. */
  lemma RequiredSectionsSuffice(c: Sections)
    requires forall s :: s in RequiredSections ==> s in c
    ensures "user" in c && SectionsExist(c, Defaults)
  {
    assert RequiredSections[0] == "user";
    forall k | 0 <= k < |Defaults| ensures Defaults[k].section in c {
      assert Defaults[k].section == RequiredSections[k + 1];
    }
  }

  /** What holds for a list of settings holds for its prefixes. */
  lemma SectionsExistPrefix(c: Sections, ds: seq<Setting>, i: nat)
    requires SectionsExist(c, ds) && i <= |ds|
    ensures SectionsExist(c, ds[..i])
  {
  }

  /** One pass of the defaults loop: set the option only if it is missing. Afterwards
      every option that was set keeps its value, and the setting's option holds its
      value if it was missing. */
  function SetIfMissing(c: Sections, d: Setting): (r: Sections)
    requires d.section in c
    ensures r.Keys == c.Keys
    ensures forall s, o :: Lookup(r, s, o) == OrElse(Lookup(c, s, o), SettingFor(d, s, o))
  {
    if HasOption(c, d.section, d.option) then c else WithOption(c, d.section, d.option, d.value)
  }

  /** Every setting's section exists in `c`. */
  predicate SectionsExist(c: Sections, ds: seq<Setting>)
  {
    forall k :: 0 <= k < |ds| ==> ds[k].section in c
  }

  /** The defaults loop over `ds` in order. */
  function SetDefaults(c: Sections, ds: seq<Setting>): (r: Sections)
    requires SectionsExist(c, ds)
    ensures r.Keys == c.Keys
    decreases |ds|
  {
    if ds == [] then c
    else
      var before := SetDefaults(c, ds[..|ds| - 1]);
      SetIfMissing(before, ds[|ds| - 1])
  }

  /** The identity block: `user.name`, then `user.email`, each set to the operator's
      answer only if it is missing. */
  function Identify(c: Sections, name: string, email: string): (r: Sections)
    requires "user" in c
    ensures r.Keys == c.Keys
  {
    var named := if HasOption(c, "user", "name") then c else WithOption(c, "user", "name", name);
    if HasOption(named, "user", "email") then named else WithOption(named, "user", "email", email)
  }

  /** The prompts the identity block shows, in order. */
  function IdentityPrompts(c: Sections): seq<Prompt>
  {
    (if HasOption(c, "user", "name") then [] else [AskName]) +
    (if HasOption(c, "user", "email") then [] else [AskEmail])
  }

  /** The merge's outcome, as a function of the old config, the old ignore file text and
      the answers the operator would give to the two prompts. */
  function GitMerge(config: Sections, ignore: string, name: string, email: string): GitRun
  {
    var sectioned := EnsureSections(config, RequiredSections);
    RequiredSectionsSuffice(sectioned);
    var identified := Identify(sectioned, name, email);
    RequiredSectionsSuffice(identified);
    GitRun(SetDefaults(identified, Defaults), ignore + IgnoreEntry, IdentityPrompts(sectioned))
  }

  /** The in-memory config object of the source, read from the file and written back. */
  class ConfigParser {
    var sections: Sections

    /** `config.read(path)`: the parsed file, or no sections when there is no file. */
    constructor (stored: Sections)
      ensures sections == stored
    {
      sections := stored;
    }

    predicate HasSection(section: string)
      reads this
    {
      section in sections
    }

    predicate HasOption(section: string, option: string)
      reads this
    {
      section in sections && option in sections[section]
    }

    method AddSection(section: string)
      requires !HasSection(section)
      modifies this
      ensures sections == WithSection(old(sections), section)
    {
      sections := sections[section := map[]];
    }

    method Set(section: string, option: string, value: string)
      requires HasSection(section)
      modifies this
      ensures sections == WithOption(old(sections), section, option, value)
    {
      sections := sections[section := sections[section][option := value]];
    }
  }

  /** The defaults loop of `configure_git` over `ds`: `set` is called only where
      `has_option` is false. */
  method ApplyDefaults(config: ConfigParser, ds: seq<Setting>)
    requires SectionsExist(config.sections, ds)
    modifies config
    ensures config.sections == SetDefaults(old(config.sections), ds)
  {
    ghost var start := config.sections;
    for i := 0 to |ds|
      invariant SectionsExist(start, ds[..i])
      invariant config.sections == SetDefaults(start, ds[..i])
    {
      var d := ds[i];
      if !config.HasOption(d.section, d.option) {
        config.Set(d.section, d.option, d.value);
      }
      assert ds[..i + 1][..i] == ds[..i];
    }
    assert ds[..|ds|] == ds;
  }

  /** The section loop of `configure_git` over `names`: `add_section` is called only
      where `has_section` is false. */
  method AddSections(config: ConfigParser, names: seq<string>)
    modifies config
    ensures config.sections == EnsureSections(old(config.sections), names)
  {
    ghost var start := config.sections;
    for i := 0 to |names|
      invariant config.sections == EnsureSections(start, names[..i])
    {
      if !config.HasSection(names[i]) {
        config.AddSection(names[i]);
      }
      assert names[..i + 1][..i] == names[..i];
    }
    assert names[..|names|] == names;
  }

  /** The identity block of `configure_git`: the operator is asked for the name, then
      the email address, each only if the option is missing, and the answer is stored. */
  method AskIdentity(config: ConfigParser, name: string, email: string) returns (prompts: seq<Prompt>)
    requires config.HasSection("user")
    modifies config
    ensures config.sections == Identify(old(config.sections), name, email)
    ensures prompts == IdentityPrompts(old(config.sections))
  {
    prompts := [];
    if !config.HasOption("user", "name") {
      prompts := prompts + [AskName];
      config.Set("user", "name", name);
    }
    if !config.HasOption("user", "email") {
      prompts := prompts + [AskEmail];
      config.Set("user", "email", email);
    }
  }

  /** `configure_git` with the file reads and writes stripped off: `name` and `email`
      are what the operator answers if asked, `ignore` is the ignore file's text, and
      the prompts shown are returned in order. */
  method ConfigureGit(config: ConfigParser, ignore: string, name: string, email: string)
      returns (newIgnore: string, prompts: seq<Prompt>)
    modifies config
    ensures GitRun(config.sections, newIgnore, prompts) == GitMerge(old(config.sections), ignore, name, email)
  {
    AddSections(config, RequiredSections);
    RequiredSectionsSuffice(config.sections);
    prompts := AskIdentity(config, name, email);
    RequiredSectionsSuffice(config.sections);
    ApplyDefaults(config, Defaults);
    newIgnore := ignore + IgnoreEntry;
  }

  // ---------------------------------------------------------------------------
  // What the merge promises, stated against the old config

  /** The value a setting in `d` gives (section, option), if it is about that option. */
  function SettingFor(d: Setting, section: string, option: string): Option<string>
  {
    if d.section == section && d.option == option then Some(d.value) else None
  }

  /** The value the first setting of `ds` about (section, option) gives. */
  function DefaultFor(ds: seq<Setting>, section: string, option: string): Option<string>
    decreases |ds|
  {
    if ds == [] then None else OrElse(SettingFor(ds[0], section, option), DefaultFor(ds[1..], section, option))
  }

  /** The value the operator's answers give (section, option), if it is an identity option. */
  function IdentityFor(section: string, option: string, name: string, email: string): Option<string>
  {
    if section == "user" && option == "name" then Some(name)
    else if section == "user" && option == "email" then Some(email)
    else None
  }

  /** Everything the merge wants present: the two identity options and the four defaults. */
  function Wanted(section: string, option: string, name: string, email: string): Option<string>
  {
    OrElse(IdentityFor(section, option, name, email), DefaultFor(Defaults, section, option))
  }

  /** The first match in a list can be found by looking at all but the last entry first. */
  lemma {:induction false} DefaultForSnoc(ds: seq<Setting>, section: string, option: string)
    requires |ds| > 0
    ensures DefaultFor(ds, section, option)
         == OrElse(DefaultFor(ds[..|ds| - 1], section, option), SettingFor(ds[|ds| - 1], section, option))
    decreases |ds|
  {
    if |ds| > 1 {
      DefaultForSnoc(ds[1..], section, option);
      assert ds[..|ds| - 1][1..] == ds[1..][..|ds[1..]| - 1];
      assert ds[..|ds| - 1][0] == ds[0];
      assert ds[1..][|ds[1..]| - 1] == ds[|ds| - 1];
    } else {
      assert ds[1..] == [];
      assert ds[..0] == [];
    }
  }

  /** The defaults loop keeps every value that is set and fills in, for each missing
      option, the first default about it. */
  lemma {:induction false} SetDefaultsLookup(c: Sections, ds: seq<Setting>, section: string, option: string)
    requires SectionsExist(c, ds)
    ensures Lookup(SetDefaults(c, ds), section, option) == OrElse(Lookup(c, section, option), DefaultFor(ds, section, option))
    decreases |ds|
  {
    if ds != [] {
      var n := |ds| - 1;
      SectionsExistPrefix(c, ds, n);
      var before := SetDefaults(c, ds[..n]);
      SetDefaultsLookup(c, ds[..n], section, option);
      DefaultForSnoc(ds, section, option);
    }
  }

  /** The whole merge, option by option: an option that was set keeps its value, a
      missing option the merge wants gets the wanted value (the operator's answer for
      the identity, the default otherwise), and no other option appears. The sections
      afterwards are the old ones and the five required ones. */
  lemma MergeLookup(c: Sections, ignore: string, name: string, email: string)
    ensures forall s, o :: Lookup(GitMerge(c, ignore, name, email).config, s, o)
                        == OrElse(Lookup(c, s, o), Wanted(s, o, name, email))
    ensures forall s :: s in GitMerge(c, ignore, name, email).config <==> s in c || s in RequiredSections
  {
    var c1 := EnsureSections(c, RequiredSections);
    RequiredSectionsSuffice(c1);
    var c3 := Identify(c1, name, email);
    RequiredSectionsSuffice(c3);
    var r := SetDefaults(c3, Defaults);
    assert GitMerge(c, ignore, name, email).config == r;
    forall s, o ensures Lookup(c3, s, o) == OrElse(Lookup(c1, s, o), IdentityFor(s, o, name, email)) {
      IdentifyLookup(c1, name, email, s, o);
    }
    forall s, o ensures Lookup(r, s, o) == OrElse(Lookup(c3, s, o), DefaultFor(Defaults, s, o)) {
      SetDefaultsLookup(c3, Defaults, s, o);
    }
    ComposeLookups(c, c1, c3, r, name, email);
  }

  /** The three stages of the merge, each keeping what is set and filling in what it
      wants, together keep what is set and fill in everything wanted. */
  lemma ComposeLookups(c: Sections, c1: Sections, c3: Sections, r: Sections, name: string, email: string)
    requires forall s, o :: Lookup(c1, s, o) == Lookup(c, s, o)
    requires forall s, o :: Lookup(c3, s, o) == OrElse(Lookup(c1, s, o), IdentityFor(s, o, name, email))
    requires forall s, o :: Lookup(r, s, o) == OrElse(Lookup(c3, s, o), DefaultFor(Defaults, s, o))
    ensures forall s, o :: Lookup(r, s, o) == OrElse(Lookup(c, s, o), Wanted(s, o, name, email))
  {
  }

  /** The identity block keeps a value that is set and otherwise stores the answer. */
  lemma IdentifyLookup(c: Sections, name: string, email: string, s: string, o: string)
    requires "user" in c
    ensures Lookup(Identify(c, name, email), s, o) == OrElse(Lookup(c, s, o), IdentityFor(s, o, name, email))
  {
  }

  /** Non-clobber: every option set before the merge is set afterwards to the same
      value, whatever it is, and no section is removed. */
  lemma MergeNeverClobbers(c: Sections, ignore: string, name: string, email: string)
    ensures forall s :: s in c ==> s in GitMerge(c, ignore, name, email).config
    ensures forall s, o :: HasOption(c, s, o) ==>
              Lookup(GitMerge(c, ignore, name, email).config, s, o) == Some(c[s][o])
  {
    MergeLookup(c, ignore, name, email);
  }

  /** After the merge the five sections exist, `user.name` and `user.email` are set, and
      so are the four defaults; a default the config lacked gets its default value. */
  lemma MergeSetsEverySetting(c: Sections, ignore: string, name: string, email: string)
    ensures forall s :: s in RequiredSections ==> s in GitMerge(c, ignore, name, email).config
    ensures HasOption(GitMerge(c, ignore, name, email).config, "user", "name")
    ensures HasOption(GitMerge(c, ignore, name, email).config, "user", "email")
    ensures forall k :: 0 <= k < |Defaults| ==>
              HasOption(GitMerge(c, ignore, name, email).config, Defaults[k].section, Defaults[k].option)
    ensures forall k :: 0 <= k < |Defaults| && !HasOption(c, Defaults[k].section, Defaults[k].option) ==>
              Lookup(GitMerge(c, ignore, name, email).config, Defaults[k].section, Defaults[k].option) == Some(Defaults[k].value)
  {
    MergeLookup(c, ignore, name, email);
    WantedPresent(c, GitMerge(c, ignore, name, email).config, name, email);
  }

  /** A config that agrees with `c` where `c` is set, and holds the wanted value
      elsewhere, holds the identity and every default. */
  lemma WantedPresent(c: Sections, r: Sections, name: string, email: string)
    requires forall s, o :: Lookup(r, s, o) == OrElse(Lookup(c, s, o), Wanted(s, o, name, email))
    ensures HasOption(r, "user", "name") && HasOption(r, "user", "email")
    ensures forall k :: 0 <= k < |Defaults| ==> HasOption(r, Defaults[k].section, Defaults[k].option)
    ensures forall k :: 0 <= k < |Defaults| && !HasOption(c, Defaults[k].section, Defaults[k].option) ==>
              Lookup(r, Defaults[k].section, Defaults[k].option) == Some(Defaults[k].value)
  {
    assert Lookup(r, "user", "name") != None;
    assert Lookup(r, "user", "email") != None;
    forall k | 0 <= k < |Defaults|
      ensures HasOption(r, Defaults[k].section, Defaults[k].option)
      ensures !HasOption(c, Defaults[k].section, Defaults[k].option) ==>
                Lookup(r, Defaults[k].section, Defaults[k].option) == Some(Defaults[k].value)
    {
      DefaultsAreWanted(k, name, email);
      assert Lookup(r, Defaults[k].section, Defaults[k].option) != None;
    }
  }

  /** Each default is what the merge wants for its option. */
  lemma DefaultsAreWanted(k: int, name: string, email: string)
    requires 0 <= k < |Defaults|
    ensures Wanted(Defaults[k].section, Defaults[k].option, name, email) == Some(Defaults[k].value)
  {
    var sections := ["core", "push", "diff", "color"];
    assert forall j :: 0 <= j < |Defaults| ==> Defaults[j].section == sections[j];
    assert sections[k] != "user";
    forall j | 0 <= j < k ensures Defaults[j].section != Defaults[k].section {
      assert sections[j] != sections[k];
    }
    DefaultForFirst(Defaults, k);
  }

  /** A setting that no earlier setting is about is the one the list gives its option. */
  lemma {:induction false} DefaultForFirst(ds: seq<Setting>, k: int)
    requires 0 <= k < |ds|
    requires forall j :: 0 <= j < k ==> ds[j].section != ds[k].section || ds[j].option != ds[k].option
    ensures DefaultFor(ds, ds[k].section, ds[k].option) == Some(ds[k].value)
    decreases k
  {
    if k > 0 {
      assert SettingFor(ds[0], ds[k].section, ds[k].option) == None;
      forall j | 0 <= j < k - 1
        ensures ds[1..][j].section != ds[1..][k - 1].section || ds[1..][j].option != ds[1..][k - 1].option
      {
        assert ds[1..][j] == ds[j + 1];
      }
      DefaultForFirst(ds[1..], k - 1);
    }
  }

  /** The operator's answer is stored only where the identity option was missing;
      an identity already set keeps its value. */
  lemma MergeStoresAnswersOnlyWhenMissing(c: Sections, ignore: string, name: string, email: string)
    ensures Lookup(GitMerge(c, ignore, name, email).config, "user", "name") == OrElse(Lookup(c, "user", "name"), Some(name))
    ensures Lookup(GitMerge(c, ignore, name, email).config, "user", "email") == OrElse(Lookup(c, "user", "email"), Some(email))
  {
    MergeLookup(c, ignore, name, email);
    IdentityWanted(c, GitMerge(c, ignore, name, email).config, name, email);
  }

  /** A config that agrees with `c` where `c` is set, and holds the wanted value
      elsewhere, holds the old identity or else the answers. */
  lemma IdentityWanted(c: Sections, r: Sections, name: string, email: string)
    requires forall s, o :: Lookup(r, s, o) == OrElse(Lookup(c, s, o), Wanted(s, o, name, email))
    ensures Lookup(r, "user", "name") == OrElse(Lookup(c, "user", "name"), Some(name))
    ensures Lookup(r, "user", "email") == OrElse(Lookup(c, "user", "email"), Some(email))
  {
  }

  /** The operator is asked for the name exactly when `user.name` is missing and for
      the email exactly when `user.email` is missing, name first; with both set there
      is no prompt at all. */
  lemma MergePrompts(c: Sections, ignore: string, name: string, email: string)
    ensures AskName in GitMerge(c, ignore, name, email).prompts <==> !HasOption(c, "user", "name")
    ensures AskEmail in GitMerge(c, ignore, name, email).prompts <==> !HasOption(c, "user", "email")
    ensures GitMerge(c, ignore, name, email).prompts == [] <==> HasOption(c, "user", "name") && HasOption(c, "user", "email")
    ensures |GitMerge(c, ignore, name, email).prompts| == 2 ==> GitMerge(c, ignore, name, email).prompts == [AskName, AskEmail]
  {
    var c1 := EnsureSections(c, RequiredSections);
    assert GitMerge(c, ignore, name, email).prompts == IdentityPrompts(c1);
    IdentityPromptsOf(c, c1);
  }

  /** The prompts for a config with the same identity options as `c`. */
  lemma IdentityPromptsOf(c: Sections, c1: Sections)
    requires Lookup(c1, "user", "name") == Lookup(c, "user", "name")
    requires Lookup(c1, "user", "email") == Lookup(c, "user", "email")
    ensures AskName in IdentityPrompts(c1) <==> !HasOption(c, "user", "name")
    ensures AskEmail in IdentityPrompts(c1) <==> !HasOption(c, "user", "email")
    ensures IdentityPrompts(c1) == [] <==> HasOption(c, "user", "name") && HasOption(c, "user", "email")
    ensures |IdentityPrompts(c1)| == 2 ==> IdentityPrompts(c1) == [AskName, AskEmail]
  {
  }

  /** An answer the operator is not asked for has no effect on the outcome. */
  lemma MergeIgnoresUnaskedAnswers(c: Sections, ignore: string, name: string, email: string, name2: string, email2: string)
    ensures HasOption(c, "user", "name") ==> GitMerge(c, ignore, name, email) == GitMerge(c, ignore, name2, email)
    ensures HasOption(c, "user", "email") ==> GitMerge(c, ignore, name, email) == GitMerge(c, ignore, name, email2)
  {
    var c1 := EnsureSections(c, RequiredSections);
    assert Lookup(c1, "user", "name") == Lookup(c, "user", "name");
    assert Lookup(c1, "user", "email") == Lookup(c, "user", "email");
  }

  /** Two configs with the same sections and the same value for every option are equal. */
  lemma LookupExtensional(a: Sections, b: Sections)
    requires a.Keys == b.Keys
    requires forall s, o :: Lookup(a, s, o) == Lookup(b, s, o)
    ensures a == b
  {
    forall s | s in a ensures a[s] == b[s] {
      forall o ensures o in a[s] <==> o in b[s] {
        assert Lookup(a, s, o) == Lookup(b, s, o);
      }
      forall o | o in a[s] ensures a[s][o] == b[s][o] {
        assert Lookup(a, s, o) == Lookup(b, s, o);
      }
    }
  }

  /** A second run, with any answers and any ignore file, leaves the config as the
      first run wrote it and asks nothing. */
  lemma MergeIdempotent(c: Sections, ignore: string, name: string, email: string,
                        ignore2: string, name2: string, email2: string)
    ensures GitMerge(GitMerge(c, ignore, name, email).config, ignore2, name2, email2).config
         == GitMerge(c, ignore, name, email).config
    ensures GitMerge(GitMerge(c, ignore, name, email).config, ignore2, name2, email2).prompts == []
  {
    var r := GitMerge(c, ignore, name, email).config;
    MergeLookup(c, ignore, name, email);
    MergeLookup(r, ignore2, name2, email2);
    RemergeStable(c, r, GitMerge(r, ignore2, name2, email2).config, name, email, name2, email2);
    MergeSetsEverySetting(c, ignore, name, email);
    MergePrompts(r, ignore2, name2, email2);
  }

  /** Merging a merged config again, with any answers, changes nothing: every option
      the second merge wants is already set. */
  lemma RemergeStable(c: Sections, r: Sections, r2: Sections, name: string, email: string, name2: string, email2: string)
    requires forall s, o :: Lookup(r, s, o) == OrElse(Lookup(c, s, o), Wanted(s, o, name, email))
    requires forall s :: s in r <==> s in c || s in RequiredSections
    requires forall s, o :: Lookup(r2, s, o) == OrElse(Lookup(r, s, o), Wanted(s, o, name2, email2))
    requires forall s :: s in r2 <==> s in r || s in RequiredSections
    ensures r2 == r
  {
    forall s, o ensures Lookup(r2, s, o) == Lookup(r, s, o) {
      if Wanted(s, o, name2, email2).Some? {
        assert Wanted(s, o, name, email).Some?;
      }
    }
    LookupExtensional(r2, r);
  }

  /** The ignore file grows by exactly one `.DS_Store` entry on every run, whatever it
      already holds, so it never settles. */
  lemma IgnoreFileGrowsEveryRun(c: Sections, ignore: string, name: string, email: string)
    ensures GitMerge(c, ignore, name, email).ignore == ignore + "\n.DS_Store\n"
    ensures GitMerge(c, ignore, name, email).ignore != ignore
  {
    assert |GitMerge(c, ignore, name, email).ignore| == |ignore| + 11;
  }

  /** `n` runs of `configure_git` in a row, with the same answers each time. */
  function GitRuns(c: Sections, ignore: string, name: string, email: string, n: nat): GitRun
    requires n >= 1
  {
    if n == 1 then GitMerge(c, ignore, name, email)
    else
      var previous := GitRuns(c, ignore, name, email, n - 1);
      GitMerge(previous.config, previous.ignore, name, email)
  }

  /** `n` runs leave the config as one run does and ask nothing after the first. */
  lemma {:induction false} RunsKeepConfig(c: Sections, ignore: string, name: string, email: string, n: nat)
    requires n >= 1
    ensures GitRuns(c, ignore, name, email, n).config == GitMerge(c, ignore, name, email).config
    ensures n >= 2 ==> GitRuns(c, ignore, name, email, n).prompts == []
  {
    if n >= 2 {
      var previous := GitRuns(c, ignore, name, email, n - 1);
      assert GitRuns(c, ignore, name, email, n) == GitMerge(previous.config, previous.ignore, name, email);
      RunsKeepConfig(c, ignore, name, email, n - 1);
      MergeIdempotent(c, ignore, name, email, previous.ignore, name, email);
    }
  }

  /** Appending one more `.DS_Store` entry to `n - 1` of them gives `n`. */
  lemma IgnoreEntryAppended(ignore: string, before: string, after: string, n: nat)
    requires n >= 1
    requires before == ignore + Text.Repeat(IgnoreEntry, n - 1)
    requires after == before + IgnoreEntry
    ensures after == ignore + Text.Repeat(IgnoreEntry, n)
  {
  }

  /** The first run leaves one `.DS_Store` entry appended. */
  lemma FirstRunIgnoreFile(c: Sections, ignore: string, name: string, email: string)
    ensures GitRuns(c, ignore, name, email, 1).ignore == ignore + Text.Repeat(IgnoreEntry, 1)
  {
    IgnoreFileGrowsEveryRun(c, ignore, name, email);
    OneIgnoreEntry(ignore, GitRuns(c, ignore, name, email, 1).ignore);
  }

  /** One appended entry is one copy of it. */
  lemma OneIgnoreEntry(ignore: string, after: string)
    requires after == ignore + IgnoreEntry
    ensures after == ignore + Text.Repeat(IgnoreEntry, 1)
  {
    assert Text.Repeat(IgnoreEntry, 1) == Text.Repeat(IgnoreEntry, 0) + IgnoreEntry;
  }

  /** Each later run appends one more entry to what the runs before it left. */
  lemma NextRunIgnoreFile(c: Sections, ignore: string, name: string, email: string, n: nat)
    requires n >= 2
    requires GitRuns(c, ignore, name, email, n - 1).ignore == ignore + Text.Repeat(IgnoreEntry, n - 1)
    ensures GitRuns(c, ignore, name, email, n).ignore == ignore + Text.Repeat(IgnoreEntry, n)
  {
    var previous := GitRuns(c, ignore, name, email, n - 1);
    var now := GitRuns(c, ignore, name, email, n);
    assert now == GitMerge(previous.config, previous.ignore, name, email);
    IgnoreFileGrowsEveryRun(previous.config, previous.ignore, name, email);
    IgnoreEntryAppended(ignore, previous.ignore, now.ignore, n);
  }

  /** The ignore file, unlike the config, never settles: after `n` runs it holds `n`
      appended `.DS_Store` entries. */
  lemma {:induction false} RunsGrowIgnoreFile(c: Sections, ignore: string, name: string, email: string, n: nat)
    requires n >= 1
    ensures GitRuns(c, ignore, name, email, n).ignore == ignore + Text.Repeat(IgnoreEntry, n)
  {
    if n >= 2 {
      RunsGrowIgnoreFile(c, ignore, name, email, n - 1);
      NextRunIgnoreFile(c, ignore, name, email, n);
    } else {
      FirstRunIgnoreFile(c, ignore, name, email);
    }
  }

  /** The config a first run writes when there was none: the five sections holding the
      answers and the four defaults. */
  function FreshConfig(name: string, email: string): Sections
  {
    map[
      "user" := map["name" := name, "email" := email],
      "core" := map["excludesfile" := "~/.gitignore_global"],
      "push" := map["default" := "current"],
      "diff" := map["renames" := "true"],
      "color" := map["ui" := "true"]]
  }

  /** A first run on an empty (or missing) config asks for both answers and writes
      exactly the fresh config. */
  lemma EmptyConfigMerge(ignore: string, name: string, email: string)
    ensures GitMerge(map[], ignore, name, email).config == FreshConfig(name, email)
    ensures GitMerge(map[], ignore, name, email).prompts == [AskName, AskEmail]
  {
    EmptyConfigWritesFresh(ignore, name, email);
    EmptyConfigAsksBoth(ignore, name, email);
  }

  /** The prompt half of `EmptyConfigMerge`. */
  lemma EmptyConfigAsksBoth(ignore: string, name: string, email: string)
    ensures GitMerge(map[], ignore, name, email).prompts == [AskName, AskEmail]
  {
    var c1 := EnsureSections(map[], RequiredSections);
    assert GitMerge(map[], ignore, name, email).prompts == IdentityPrompts(c1);
    assert Lookup(c1, "user", "name") == None && Lookup(c1, "user", "email") == None;
    NoIdentityAsksBoth(c1);
  }

  /** With neither identity option set, both prompts are shown, name first. */
  lemma NoIdentityAsksBoth(c: Sections)
    requires !HasOption(c, "user", "name") && !HasOption(c, "user", "email")
    ensures IdentityPrompts(c) == [AskName, AskEmail]
  {
  }

  /** The config half of `EmptyConfigMerge`. */
  lemma EmptyConfigWritesFresh(ignore: string, name: string, email: string)
    ensures GitMerge(map[], ignore, name, email).config == FreshConfig(name, email)
  {
    MergeLookup(map[], ignore, name, email);
    assert forall s, o :: Lookup(map[], s, o) == None;
    WantedIsFresh(GitMerge(map[], ignore, name, email).config, name, email);
  }

  /** A config that holds exactly the required sections and exactly the wanted options
      is the fresh config. */
  lemma WantedIsFresh(r: Sections, name: string, email: string)
    requires forall s, o :: Lookup(r, s, o) == Wanted(s, o, name, email)
    requires forall s :: s in r <==> s in RequiredSections
    ensures r == FreshConfig(name, email)
  {
    var e := FreshConfig(name, email);
    forall s, o ensures Lookup(r, s, o) == Lookup(e, s, o) {
      WantedTable(s, o, name, email);
    }
    assert r.Keys == e.Keys;
    LookupExtensional(r, e);
  }

  /** The options the merge wants, written out as a config. */
  lemma WantedTable(s: string, o: string, name: string, email: string)
    ensures Wanted(s, o, name, email) == Lookup(FreshConfig(name, email), s, o)
  {
    var ds := Defaults;
    assert ds[1..][1..][1..][1..] == [];
  }

  /** A first run on a config holding only `user.name` keeps that name, asks only for
      the email address, and writes the fresh config with the stored name. */
  lemma NameOnlyConfigMerge(stored: string, ignore: string, name: string, email: string)
    ensures GitMerge(map["user" := map["name" := stored]], ignore, name, email).config == FreshConfig(stored, email)
    ensures GitMerge(map["user" := map["name" := stored]], ignore, name, email).prompts == [AskEmail]
  {
    var c: Sections := map["user" := map["name" := stored]];
    MergeLookup(c, ignore, name, email);
    MergePrompts(c, ignore, name, email);
    StoredNameWanted(c, GitMerge(c, ignore, name, email).config, stored, name, email);
    WantedIsFresh(GitMerge(c, ignore, name, email).config, stored, email);
  }

  /** Merging into a config holding only `user.name` is merging into an empty one with
      the stored name for an answer. */
  lemma StoredNameWanted(c: Sections, r: Sections, stored: string, name: string, email: string)
    requires c == map["user" := map["name" := stored]]
    requires forall s, o :: Lookup(r, s, o) == OrElse(Lookup(c, s, o), Wanted(s, o, name, email))
    requires forall s :: s in r <==> s in c || s in RequiredSections
    ensures forall s, o :: Lookup(r, s, o) == Wanted(s, o, stored, email)
    ensures forall s :: s in r <==> s in RequiredSections
  {
    assert "user" in RequiredSections;
  }
}

# Configuration merge of `system_setup.py`

The workstation bootstrap script `system_setup.py` has one piece of real logic: it
merges required settings into two of the user's files without clobbering what is
already there.

- `configure_git` (lines 138-176) reads `~/.gitconfig` into a `ConfigParser`.
  - It makes sure the sections `user`, `core`, `push`, `diff` and `color` exist.
  - It asks the operator for `user.name` and `user.email`, but only where they are missing.
  - It sets four defaults, each only where its option is missing.
  - It writes the config back.
  - It then appends `\n.DS_Store\n` to `~/.gitignore_global` on every run.
- `configure_bash` (lines 178-222) reads `~/.bash_profile`, or the empty text when the
  file is absent. It only ever appends, each addition guarded by a search of the text
  built so far:
  - a coloured `PS1` prompt, unless `PS1=` occurs;
  - three `export PATH=` lines, each unless `re.search(r'PATH=.*' + fragment, text)` succeeds;
  - four `export VAR=value` lines, each unless the variable's name occurs;
  - a final newline, unless the text already ends with one.

The project is five Dafny modules.

- `Wrappers` holds `Option`.
- `Text` holds Python's substring test `p in s`, `endswith`, and the "is a prefix of"
  relation that append-only edits keep. The search `Contains` is proved against
  "occurs at some index".
- `PathPattern` models the one regular expression used.
  - `Search` interprets `PATH=.*fragment` as Python's `re` does for these fragments:
    `.` never matches a newline, and an unescaped `$` is an end-of-text anchor (end of
    text, or before a final newline).
  - For a fragment without `$`, it is proved equal to the line-local reading: some line
    holds `PATH=` and, later on that same line, the fragment.
  - It is also proved that the `$HOME/bin` pattern matches no text at all.
- `BashProfile` covers the profile side.
  - `BashMerge` states the new profile as a fold of the guarded steps over the old text.
  - `ConfigureBash` builds the text with `+=` inside two loops, as the source does, and
    is proved equal to `BashMerge`.
  - The lemmas state append-only growth, the trailing newline and each guard.
  - They also show that a second run always appends another `$HOME/bin` line.
- `GitConfig` covers the version-control side.
  - A config is a map from section names to maps from option names to values.
  - `ConfigParser` is a class whose `sections` field `add_section` and `set` update in place.
    `ConfigureGit` runs the three blocks of the source on it.
  - It is proved equal to the pure `GitMerge`. The lemmas about `GitMerge` cover:
    - the value of every option afterwards;
    - non-clobber;
    - when prompts happen;
    - idempotence of the config;
    - that the ignore file never settles.

The operator's answers to the two prompts are parameters. The model returns the prompts
that would be shown, in order. Reading and writing the files are left at the boundary:
a method receives the parsed content and returns the new content.

Two consequences of the code are worth knowing:

- The merged profile always ends with exactly one `\n`. The `$HOME/bin` line is
  appended on every run and no later line ends in a newline, so the final step always
  appends one. Blank lines the old profile ended with end up before the appended lines
  (`ExactlyOneNewline`). With the fragments escaped (`BashMergeEscaped`), a profile where
  every guard already succeeds is left as it is, trailing blank lines included.
- Running the profile merge twice is not idempotent, because of the `$HOME/bin` anchor:
  see "## Findings".

## Model

| member | source | states |
|---|---|---|
| Text.Contains | system_setup.py:189-212 | Python's `p in s`, as in the guards at lines 189 and 212; its meaning is stated by `ContainsIffOccurs` |
| Text.ContainsIffOccurs | system_setup.py:189 | Python's `p in s`, searched from the left, holds exactly when `p` occurs at some index of `s` |
| Text.ContainsExtends | system_setup.py:189-213 | appending text never removes a substring, so a substring guard that succeeds once succeeds on all later text |
| Text.EndsWith | system_setup.py:215 | Python's `s.endswith(p)`: `s` ends with the characters of `p`; it decides the final-newline guard, and `EnsureTrailingNewline` and `ExactlyOneNewline` state the outcome |
| PathPattern.Search | system_setup.py:197 | `re.search(r'PATH=.*' + fragment, text)` with `.` not matching a newline and `$` as the end-of-text anchor; its meaning is stated by `SearchIffSameLine` and `HomeBinNeverMatches` |
| PathPattern.SearchText | system_setup.py:197 | the same search with the fragment escaped, every character standing for itself; its meaning is stated by `SearchTextIffSameLine` |
| PathPattern.SearchIffSameLine | system_setup.py:197 | for a fragment without `$`, `re.search(r'PATH=.*' + fragment, t)` succeeds exactly when some line of `t` holds `PATH=` followed later on that same line by the fragment (both directions) |
| PathPattern.LiteralMatch | system_setup.py:197 | a fragment without `$` matches at the start of a text exactly when the text starts with it |
| PathPattern.HomeBinNeverMatches | system_setup.py:196-197 | the pattern `PATH=.*$HOME/bin` matches no text at all, because after the `$` anchor no `H` can follow |
| PathPattern.SearchExtends | system_setup.py:196-198 | a match of a literal fragment's pattern survives any append |
| PathPattern.SearchTextIffSameLine | system_setup.py:197 | the search with the fragment escaped is the line-local reading for every fragment, `$HOME/bin` included |
| BashProfile.ProfileText | system_setup.py:180-187 | the profile as read: the file's text, or `''` when the file does not exist; `ConfigureBash` states the new profile in terms of it |
| BashProfile.PathLine | system_setup.py:198 | the line appended for a missing fragment, a newline then `export PATH=` with the fragment in front of `$PATH`; `PathLineSameLine` and `PathLineMatches` state that it satisfies its own guard |
| BashProfile.PathLineSameLine | system_setup.py:196-198 | after the line for any fragment is appended, some line of the text holds `PATH=` followed on that same line by the fragment |
| BashProfile.PathLineMatches | system_setup.py:196-198 | for a fragment without `$`, the pattern of line 197 matches the text once the fragment's line is appended, so the step's guard succeeds on every later text |
| BashProfile.Exports | system_setup.py:200-211 | the four variables in order, `CLICOLOR`, `LSCOLORS`, `PAGER` and `EDITOR`, with their values; the editor's value is the editor followed by ` --wait`, in double quotes |
| BashProfile.ExportLine | system_setup.py:213 | the line appended for a missing variable, a newline then `export VAR=value`; `ExportLinesEndInText` states what its end is |
| BashProfile.ExportLinesEndInText | system_setup.py:200-213 | for every editor, none of the four export lines ends in a newline |
| BashProfile.AddPrompt | system_setup.py:189-194 | the prompt step, which appends a newline and the constant `Ps1Line` (the `export PS1=` literal of lines 191-194, character for character), keeps the old text as a prefix and leaves `PS1=` in the text |
| BashProfile.AddPath | system_setup.py:197-198 | one PATH step keeps the old text as a prefix, and for a fragment without `$` its pattern matches afterwards |
| BashProfile.AddExport | system_setup.py:212-213 | one export step keeps the old text as a prefix and leaves the variable's name in the text |
| BashProfile.AddPaths | system_setup.py:196-198 | the PATH loop over the fragments in order keeps the old text as a prefix; `PathStep`, `HomeBinAlwaysAppended` and `PathsWithBinPresent` state what each step adds |
| BashProfile.AddExports | system_setup.py:200-213 | the export loop over the four variables in order keeps the old text as a prefix; `ExportsAllMentioned` and `ExportsSkipPresent` state what it adds |
| BashProfile.EnsureTrailingNewline | system_setup.py:215-216 | the result extends the text, ends with `\n`, equals the text when it already ended with `\n`, and is at most one character longer |
| BashProfile.BashMerge | system_setup.py:178-216 | `configure_bash` as a function of the old profile text and the editor: the prompt step, the PATH loop, the export loop and the final newline, in that order; `ConfigureBash` is proved equal to it and the lemmas below state its properties |
| BashProfile.ConfigureBash | system_setup.py:178-222 | the text built with `+=` in the loops equals `BashMerge` of the old profile (empty when absent), keeps the old text as a prefix, and ends with `\n` |
| BashProfile.MergeExtendsProfile | system_setup.py:189-216 | the merge is append-only: the old profile is a prefix of the new one, which ends with `\n` |
| BashProfile.ExactlyOneNewline | system_setup.py:196-216 | the merged profile ends with exactly one `\n`: its last character is a newline and the one before it is not |
| BashProfile.MergePromptBlock | system_setup.py:189-194 | the prompt block directly follows the old profile exactly when the old profile did not contain `PS1=` |
| BashProfile.PathStep | system_setup.py:196-198 | for `/usr/local/sbin` and `/usr/local/bin`, a PATH line is appended exactly when no line holds `PATH=` followed later by the fragment, and otherwise nothing changes |
| BashProfile.HomeBinAlwaysAppended | system_setup.py:196-198 | the `$HOME/bin` line is appended whatever the text holds |
| BashProfile.MergeNeverFixpoint | system_setup.py:196-198 | every run grows the profile by at least the `$HOME/bin` line, so no profile is left unchanged |
| BashProfile.PathsWithBinPresent | system_setup.py:196-198 | a profile that already has a `/usr/local/bin` PATH line, but none for `/usr/local/sbin`, gets exactly the `/usr/local/sbin` and `$HOME/bin` lines, in that order |
| BashProfile.ExportsAllMentioned | system_setup.py:200-213 | after the export steps, every variable's name occurs in the text |
| BashProfile.ExportsSkipPresent | system_setup.py:212-213 | export steps whose names already occur add nothing |
| BashProfile.MergeMentionsEveryVariable | system_setup.py:200-213 | after the merge, `CLICOLOR`, `LSCOLORS`, `PAGER` and `EDITOR` all occur in the profile |
| BashProfile.MergeSkipsPresentVariables | system_setup.py:200-213 | a profile that already names all four variables gets no export line |
| BashProfile.MergeSatisfiesGuards | system_setup.py:189-198 | after the merge, the `PS1=` guard and both literal PATH guards succeed |
| BashProfile.SatisfiedMerge | system_setup.py:189-216 | on a text where every guard but the `$HOME/bin` one succeeds, the merge appends exactly the `$HOME/bin` line and a newline |
| BashProfile.SecondRunAddsOnlyHomeBin | system_setup.py:189-216 | a second run, with any editor, appends exactly one more `$HOME/bin` line and a newline to the first run's output |
| BashProfile.BashMergeEscaped | system_setup.py:178-216 | the profile merge with each PATH fragment matched as plain text, as `re.escape` would; `EscapedMergeIdempotent` states its idempotence |
| BashProfile.AddPathEscaped | system_setup.py:196-198 | the corrected PATH step, the fragment matched as plain text: it keeps the old text as a prefix, and afterwards the fragment's pattern matches, whatever the fragment, `$HOME/bin` included |
| BashProfile.AddPathsEscaped | system_setup.py:196-198 | the PATH steps with escaped fragments keep the old text as a prefix, and afterwards every fragment's pattern matches |
| BashProfile.EscapedMergeSatisfiesGuards | system_setup.py:189-216 | after the merge with escaped fragments, every guard succeeds and the text ends with `\n` |
| BashProfile.EscapedMergeIdempotent | system_setup.py:189-216 | with the fragments escaped, a second run, with any editor, leaves the profile as the first run wrote it |
| GitConfig.HasOption | system_setup.py:149-163 | ConfigParser's `has_option` on the parsed config, as in the guards at lines 149, 152 and 163: the section exists and holds the option, so it is false when the section is missing |
| GitConfig.Lookup | system_setup.py:149-164 | the value of an option, and none exactly where `has_option` is false; the merge lemmas state every option's value through it |
| GitConfig.WithSection | system_setup.py:147 | `add_section` of a missing section: the sections are the old ones plus this one, and no option's value changes |
| GitConfig.WithOption | system_setup.py:151-164 | `set` in an existing section: no section is added, the option holds the new value, and every other option keeps its value |
| GitConfig.EnsureSection | system_setup.py:146-147 | one pass of the section loop: the section exists afterwards, no other section appears, and no option changes |
| GitConfig.EnsureSections | system_setup.py:145-147 | after the section loop the sections are exactly the old ones plus the required ones, and no option is added, removed or changed |
| GitConfig.SetIfMissing | system_setup.py:163-164 | one pass of the defaults loop: every option that was set keeps its value, the setting's option takes the setting's value if it was missing, and no section is added |
| GitConfig.SetDefaults | system_setup.py:156-164 | the defaults loop adds no section |
| GitConfig.Identify | system_setup.py:149-154 | the identity block adds no section |
| GitConfig.IdentityPrompts | system_setup.py:149-154 | the prompts the identity block shows, name before email, each only where its option is missing; `MergePrompts` and `IdentityPromptsOf` state this |
| GitConfig.ConfigParser.constructor | system_setup.py:142-143 | `config.read`: the parser holds the sections as parsed from the file, and none when the file does not exist |
| GitConfig.ConfigParser.HasSection | system_setup.py:146 | `has_section` on the parser's current sections |
| GitConfig.ConfigParser.HasOption | system_setup.py:149-163 | `has_option` on the parser's current sections, as in the guards at lines 149, 152 and 163; false when the section is missing |
| GitConfig.ConfigParser.AddSection | system_setup.py:147 | `add_section` adds one empty section; it is only called on a missing section |
| GitConfig.ConfigParser.Set | system_setup.py:151-164 | `set`, as called at lines 151, 154 and 164: the new state is `WithOption` of the old one, so the option holds the value and nothing else changes |
| GitConfig.AddSections | system_setup.py:145-147 | the section loop on the parser object leaves what `EnsureSections` describes |
| GitConfig.AskIdentity | system_setup.py:149-154 | the identity block on the parser object leaves what `Identify` describes, and shows the prompts for the missing options, name first |
| GitConfig.ApplyDefaults | system_setup.py:156-164 | the defaults loop on the parser object leaves what `SetDefaults` describes |
| GitConfig.GitMerge | system_setup.py:138-176 | `configure_git` as a function of the old config, the old ignore file text and the operator's answers: the config written back, the ignore text after the append, and the prompts shown; `ConfigureGit` is proved equal to it and the lemmas below state its properties |
| GitConfig.ConfigureGit | system_setup.py:138-176 | the config written back, the new ignore file text and the prompts shown are exactly `GitMerge` of the old config and the operator's answers |
| GitConfig.SetDefaultsLookup | system_setup.py:156-164 | the defaults loop keeps every value that is set and fills each missing option with the first default about it |
| GitConfig.IdentifyLookup | system_setup.py:149-154 | the identity block keeps a value that is set and otherwise stores the operator's answer |
| GitConfig.MergeLookup | system_setup.py:145-164 | after the merge, every option that was set keeps its value; a missing option the merge wants gets the answer or its default; no other option appears; the sections are the old ones plus the five required ones |
| GitConfig.MergeNeverClobbers | system_setup.py:145-164 | no section is removed, and every option that was set keeps its old value, whether or not it differs from the default |
| GitConfig.MergeSetsEverySetting | system_setup.py:145-164 | afterwards the five sections exist, `user.name`, `user.email` and the four defaults are set, and a default the config lacked has its default value |
| GitConfig.DefaultsAreWanted | system_setup.py:156-162 | each of the four defaults is what the merge wants for its option |
| GitConfig.MergeStoresAnswersOnlyWhenMissing | system_setup.py:149-154 | an answer is stored only where the identity option was missing; a set identity keeps its value |
| GitConfig.MergePrompts | system_setup.py:149-154 | the name is asked for exactly when `user.name` is missing, and the email exactly when `user.email` is missing; there is no prompt exactly when both are set; name comes before email |
| GitConfig.MergeIgnoresUnaskedAnswers | system_setup.py:149-154 | an answer the operator is not asked for has no effect on the outcome |
| GitConfig.MergeIdempotent | system_setup.py:145-164 | a second run, with any answers and any ignore file, leaves the config as the first run wrote it and asks nothing |
| GitConfig.IgnoreFileGrowsEveryRun | system_setup.py:172-176 | every run appends exactly `\n.DS_Store\n` to the ignore file, whatever it holds, so the ignore file always changes |
| GitConfig.GitRuns | system_setup.py:138-176 | `n` runs of `configure_git` in a row with the same answers, each starting from what the previous run wrote |
| GitConfig.RunsKeepConfig | system_setup.py:138-176 | `n` runs in a row leave the config as one run does, and no run after the first asks anything |
| GitConfig.RunsGrowIgnoreFile | system_setup.py:172-176 | after `n` runs, the ignore file is the old text followed by `n` copies of `\n.DS_Store\n` |
| GitConfig.EmptyConfigMerge | system_setup.py:143-164 | on an empty or missing config, the merge asks for both answers and writes exactly the five sections holding the answers and the four defaults |
| GitConfig.NameOnlyConfigMerge | system_setup.py:145-164 | on a config holding only `user.name`, the merge keeps that name, asks only for the email, and adds the other sections and the defaults |

## Left out

- File I/O. This covers reading and writing `~/.gitconfig`, `~/.bash_profile` and `~/.gitignore_global`, and the existence test for the profile. The methods take the parsed content and return the new content.
- ConfigParser's INI syntax and serialisation. The config is a map from section to options, so the order in which sections and options are written is not modelled.
- ConfigParser's `DEFAULT` section fallback in `has_option`, its lowercasing of option names, and its handling of a malformed file. These belong to the library, not to this script.
- Files ConfigParser refuses. The model's input is the config as ConfigParser managed to parse it. Python 2.7's parser refuses an option line that starts with whitespace, and git writes its options indented by a tab (`[user]` then `\tname = X`). So on a `~/.gitconfig` that git wrote, `config.read` at line 143 raises `ParsingError` before any merge step runs, and the model does not capture that failure.
- ConfigureGit: makes no claim that `SafeConfigParser.set` accepts the values. That library call raises on a value with a `%` that is not a valid interpolation, for example a name such as `100% me`. The model stores every answer as given.
- Interactive prompts. `raw_input` is replaced by two answer parameters, and the prompts shown are returned as a list.
- The general regular-expression engine. Only the fragment of Python's `re` that the three patterns need is modelled: literal characters, `.*` and an unescaped `$`.
- The rest of `system_setup.py` (lines 17-135, 224 on) is subprocess calls, network fetches, filesystem probes and symbolic links. It has no logic of its own to state.

## Findings

| source | as written | input that shows it | evidently intended | confidence | as-written member | corrected member |
|---|---|---|---|---|---|---|
| system_setup.py:196-197 | the fragment `$HOME/bin` is spliced into the pattern unescaped, so its `$` is an end-of-text anchor and `PATH=.*$HOME/bin` can never match | a profile already holding `export PATH=$HOME/bin:$PATH` (any profile, in fact) gets another `$HOME/bin` line on every run | the fragment matched as plain text (`re.escape`), so that an existing `$HOME/bin` PATH line is detected and the profile merge is idempotent | not executed | BashProfile.SecondRunAddsOnlyHomeBin | BashProfile.EscapedMergeIdempotent |

/**
 The shell-profile merge of `configure_bash` (system_setup.py:178-222): the text of
 `~/.bash_profile` (empty when the file does not exist) is extended, never rewritten,
 by a coloured prompt definition, three `export PATH=` lines and four `export VAR=value`
 lines, each guarded by a search of the text built so far, and finally by a newline
 if it does not already end with one. `BashMerge` states the result as a function of
 the old text and the editor command; `ConfigureBash` builds it the way the source
 does, with `+=` inside loops.
 */
module BashProfile {
  import opened Wrappers
  import opened Text
  import opened PathPattern

  /** The coloured prompt definition appended after a newline when no `PS1=` is present. */
  const Ps1Line: string := "export PS1=" + Ps1Value

  /** Bold user name, host and working directory in three colours, then `$ ` on a new line;
      the backslashes are kept as written, for bash to interpret. */
  const Ps1Value: string := @"""\[$(tput bold)\]\[$(tput setaf 5)\]\u\[$(tput sgr0)\]:\[$(tput bold)\]\[$(tput setaf 2)\]\h\[$(tput sgr0)\]:\[$(tput bold)\]\[$(tput setaf 4)\]\w\[$(tput sgr0)\]\n$ \[$(tput sgr0)\]"""

  /** The directories put on the search path, in the order they are tried. */
  const PathFragments: seq<string> := ["/usr/local/sbin", "/usr/local/bin", HomeBin]

  /** The first two fragments hold no `$`: their patterns are plain text. */
  lemma LiteralFragments()
    ensures Literal("/usr/local/sbin") && Literal("/usr/local/bin")
  {
  }

  /** The fragment whose pattern starts with an unescaped `$`. */
  const HomeBin: string := "$HOME/bin"

  /** An environment variable the profile exports, and the value it is given. */
  datatype Export = Export(variable: string, value: string)

  /** The four exports, in order; the editor is invoked so that it waits for the file to be closed. */
  function Exports(editor: string): seq<Export>
  {
    [ Export("CLICOLOR", "1"),
      Export("LSCOLORS", "ExFxCxDxBxegedabagacad"),
      Export("PAGER", "less"),
      Export("EDITOR", "\"" + editor + " --wait\"") ]
  }

  /** The line appended for a missing search-path fragment. */
  function PathLine(fragment: string): string
  {
    "\nexport PATH=" + fragment + ":$PATH"
  }

  /** The line appended for a missing variable. */
  function ExportLine(e: Export): string
  {
    "\nexport " + e.variable + "=" + e.value
  }

  /** The text an absent profile reads as. */
  function ProfileText(stored: Option<string>): string
  {
    if stored.Some? then stored.value else ""
  }

  /** The prompt step: a text with `PS1=` anywhere is left alone; otherwise the
      prompt definition is appended. Either way the result defines `PS1=`. */
  function AddPrompt(t: string): (r: string)
    ensures IsPrefix(t, r)
    ensures Contains(r, "PS1=")
  {
    if Contains(t, "PS1=") then t
    else
      var r := t + "\n" + Ps1Line;
      PrefixOfAppend(t, "\n" + Ps1Line);
      assert r == t + ("\n" + Ps1Line);
      assert r[|t| + 8..|t| + 12] == "PS1=";
      ContainsAt(r, "PS1=", |t| + 8);
      r
  }

  /** One PATH step: the line is appended unless the `PATH=.*fragment` search
      succeeds. For a fragment without `$` the search succeeds afterwards. */
  function AddPath(t: string, fragment: string): (r: string)
    ensures IsPrefix(t, r)
    ensures Literal(fragment) ==> Search(r, fragment)
  {
    if Search(t, fragment) then t
    else
      var r := t + PathLine(fragment);
      PrefixOfAppend(t, PathLine(fragment));
      PathLineMatches(t, fragment);
      r
  }

  /** The line appended for a fragment holds `PATH=` and, later on the same line, the fragment. */
  lemma PathLineSameLine(t: string, fragment: string)
    ensures SameLineMatch(t + PathLine(fragment), fragment)
  {
    var r := t + PathLine(fragment);
    var i := |t| + 8;
    assert r[i..i + 5] == "PATH=";
    assert r[i + 5..i + 5 + |fragment|] == fragment;
    assert r[i + 5..i + 5] == [];
    assert SameLineAt(r, fragment, i, i + 5);
  }

  /** The line appended for a literal fragment is itself a match for its pattern. */
  lemma PathLineMatches(t: string, fragment: string)
    ensures Literal(fragment) ==> Search(t + PathLine(fragment), fragment)
  {
    if Literal(fragment) {
      PathLineSameLine(t, fragment);
      SearchIffSameLine(t + PathLine(fragment), fragment);
    }
  }

  /** The PATH steps in list order: the last fragment is tried last. */
  function AddPaths(t: string, fragments: seq<string>): (r: string)
    ensures IsPrefix(t, r)
    decreases |fragments|
  {
    if fragments == [] then t
    else
      var before := AddPaths(t, fragments[..|fragments| - 1]);
      var r := AddPath(before, fragments[|fragments| - 1]);
      PrefixTransitive(t, before, r);
      r
  }

  /** One export step: the line is appended unless the variable's name already
      occurs anywhere in the text. Either way the name occurs afterwards. */
  function AddExport(t: string, e: Export): (r: string)
    ensures IsPrefix(t, r)
    ensures Contains(r, e.variable)
  {
    if Contains(t, e.variable) then t
    else
      var r := t + ExportLine(e);
      PrefixOfAppend(t, ExportLine(e));
      assert r[|t| + 8..|t| + 8 + |e.variable|] == e.variable;
      ContainsAt(r, e.variable, |t| + 8);
      r
  }

  /** The export steps in list order. */
  function AddExports(t: string, exports: seq<Export>): (r: string)
    ensures IsPrefix(t, r)
    decreases |exports|
  {
    if exports == [] then t
    else
      var before := AddExports(t, exports[..|exports| - 1]);
      var r := AddExport(before, exports[|exports| - 1]);
      PrefixTransitive(t, before, r);
      r
  }

  /** The final step: a newline is appended unless the text already ends with one. */
  function EnsureTrailingNewline(t: string): (r: string)
    ensures IsPrefix(t, r) && EndsWith(r, "\n")
    ensures EndsWith(t, "\n") ==> r == t
    ensures |r| <= |t| + 1
  {
    if EndsWith(t, "\n") then t
    else
      PrefixOfAppend(t, "\n");
      t + "\n"
  }

  /** The new profile text, as a function of the old text and the editor command. */
  function BashMerge(profile: string, editor: string): string
  {
    EnsureTrailingNewline(AddExports(AddPaths(AddPrompt(profile), PathFragments), Exports(editor)))
  }

  /** `configure_bash` with the file read and write stripped off: builds the new
      profile text step by step, as the source does. */
  method ConfigureBash(stored: Option<string>, editor: string) returns (text: string)
    ensures text == BashMerge(ProfileText(stored), editor)
    ensures IsPrefix(ProfileText(stored), text) && EndsWith(text, "\n")
  {
    text := if stored.Some? then stored.value else "";
    ghost var profile := text;
    if !Contains(text, "PS1=") {
      text := text + "\n";
      text := text + Ps1Line;
    }
    ghost var prompted := text;
    assert prompted == AddPrompt(profile);
    for i := 0 to |PathFragments|
      invariant text == AddPaths(prompted, PathFragments[..i])
    {
      var path := PathFragments[i];
      if !Search(text, path) {
        text := text + PathLine(path);
      }
      PrefixStep(PathFragments, i);
    }
    PrefixAll(PathFragments);
    ghost var pathed := text;
    var exports := Exports(editor);
    for i := 0 to |exports|
      invariant text == AddExports(pathed, exports[..i])
    {
      if !Contains(text, exports[i].variable) {
        text := text + ExportLine(exports[i]);
      }
      PrefixStep(exports, i);
    }
    PrefixAll(exports);
    ghost var exported := text;
    if !EndsWith(text, "\n") {
      text := text + "\n";
    }
    assert text == EnsureTrailingNewline(exported);
    MergeExtendsProfile(profile, editor);
  }

  /** The merge is append-only: the old profile is a prefix of the new one, and the
      new one ends with a newline. */
  lemma MergeExtendsProfile(profile: string, editor: string)
    ensures IsPrefix(profile, BashMerge(profile, editor))
    ensures EndsWith(BashMerge(profile, editor), "\n")
  {
    var t1 := AddPrompt(profile);
    var t2 := AddPaths(t1, PathFragments);
    var t3 := AddExports(t2, Exports(editor));
    PrefixTransitive(profile, t1, t2);
    PrefixTransitive(profile, t2, t3);
    PrefixTransitive(profile, t3, BashMerge(profile, editor));
  }

  /** The three PATH steps, one after the other. */
  lemma AddPathsUnfold(t: string)
    ensures AddPaths(t, PathFragments)
         == AddPath(AddPath(AddPath(t, "/usr/local/sbin"), "/usr/local/bin"), HomeBin)
  {
    assert AddPaths(t, PathFragments) == AddPath(AddPaths(t, PathFragments[..2]), HomeBin);
    assert PathFragments[..2][..1] == PathFragments[..1];
    assert AddPaths(t, PathFragments[..2]) == AddPath(AddPaths(t, PathFragments[..1]), "/usr/local/bin");
    assert PathFragments[..1][..0] == [];
    assert AddPaths(t, PathFragments[..1]) == AddPath(t, "/usr/local/sbin");
  }

  /** The PATH step for a literal fragment appends its line exactly when no line
      of the text holds `PATH=` followed, later on that line, by the fragment. */
  lemma PathStep(t: string, fragment: string)
    requires Literal(fragment)
    ensures SameLineMatch(t, fragment) ==> AddPath(t, fragment) == t
    ensures !SameLineMatch(t, fragment) ==> AddPath(t, fragment) == t + PathLine(fragment)
  {
    SearchIffSameLine(t, fragment);
  }

  /** The `$HOME/bin` line is appended whatever the text holds, because its pattern
      can never match. */
  lemma HomeBinAlwaysAppended(t: string)
    ensures AddPath(t, HomeBin) == t + PathLine(HomeBin)
  {
    HomeBinNeverMatches(t);
  }

  /** Hence the profile merge never leaves a profile unchanged: it grows by at
      least the `$HOME/bin` line on every run. */
  lemma MergeNeverFixpoint(profile: string, editor: string)
    ensures |BashMerge(profile, editor)| >= |profile| + |PathLine(HomeBin)|
    ensures BashMerge(profile, editor) != profile
  {
    var t1 := AddPrompt(profile);
    AddPathsUnfold(t1);
    var t2 := AddPath(AddPath(t1, "/usr/local/sbin"), "/usr/local/bin");
    HomeBinAlwaysAppended(t2);
    assert |PathLine(HomeBin)| > 0;
  }

  /** `t` is non-empty and its last character is not a newline. */
  predicate EndsInText(t: string)
  {
    |t| > 0 && t[|t| - 1] != '\n'
  }

  /** Export steps whose lines do not end in a newline keep a text that does not end
      in one from ending in one. */
  lemma {:induction false} ExportsEndInText(t: string, exports: seq<Export>)
    requires EndsInText(t)
    requires forall k :: 0 <= k < |exports| ==> EndsInText(ExportLine(exports[k]))
    ensures EndsInText(AddExports(t, exports))
    decreases |exports|
  {
    if exports != [] {
      var n := |exports| - 1;
      forall k | 0 <= k < n ensures EndsInText(ExportLine(exports[..n][k])) {
        assert exports[..n][k] == exports[k];
      }
      ExportsEndInText(t, exports[..n]);
      var before := AddExports(t, exports[..n]);
      var line := ExportLine(exports[n]);
      assert (before + line)[|before + line| - 1] == line[|line| - 1];
    }
  }

  /** None of the four export lines ends in a newline. */
  lemma ExportLinesEndInText(editor: string)
    ensures forall k :: 0 <= k < |Exports(editor)| ==> EndsInText(ExportLine(Exports(editor)[k]))
  {
    forall k | 0 <= k < |Exports(editor)| ensures EndsInText(ExportLine(Exports(editor)[k])) {
      var e := Exports(editor)[k];
      var line := ExportLine(e);
      assert line == ("\nexport " + e.variable + "=") + e.value;
      assert |e.value| > 0 && e.value[|e.value| - 1] != '\n' by {
        if k == 3 {
          assert e.value == ("\"" + editor + " --wait") + "\"";
        }
      }
    }
  }

  /** The merged profile ends with exactly one newline: the `$HOME/bin` line is always
      appended and no later line ends in a newline, so the final step always appends
      one, and blank lines the old profile ended with now sit before the appended lines. */
  lemma ExactlyOneNewline(profile: string, editor: string)
    ensures |BashMerge(profile, editor)| >= 2
    ensures BashMerge(profile, editor)[|BashMerge(profile, editor)| - 1] == '\n'
    ensures BashMerge(profile, editor)[|BashMerge(profile, editor)| - 2] != '\n'
  {
    var t1 := AddPrompt(profile);
    AddPathsUnfold(t1);
    var s2 := AddPath(AddPath(t1, "/usr/local/sbin"), "/usr/local/bin");
    HomeBinAlwaysAppended(s2);
    var s3 := s2 + PathLine(HomeBin);
    assert s3[|s3| - 1] == 'H';
    ExportLinesEndInText(editor);
    ExportsEndInText(s3, Exports(editor));
    var t3 := AddExports(s3, Exports(editor));
    assert BashMerge(profile, editor) == t3 + "\n";
  }

  /** A PATH line starts with `export PATH=` on a new line. */
  lemma PathLineStart(t: string, fragment: string)
    ensures IsPrefix(t + "\nexport PATH=", t + PathLine(fragment))
  {
    assert t + PathLine(fragment) == (t + "\nexport PATH=") + (fragment + ":$PATH");
    PrefixOfAppend(t + "\nexport PATH=", fragment + ":$PATH");
  }

  /** Whatever the PATH steps find, the first line they append is a PATH line. */
  lemma PathsBeginWithPathLine(t: string)
    ensures IsPrefix(t + "\nexport PATH=", AddPaths(t, PathFragments))
  {
    AddPathsUnfold(t);
    var t1 := AddPath(t, "/usr/local/sbin");
    var t2 := AddPath(t1, "/usr/local/bin");
    var t3 := AddPath(t2, HomeBin);
    HomeBinAlwaysAppended(t2);
    if t1 != t {
      PathLineStart(t, "/usr/local/sbin");
      PrefixTransitive(t + "\nexport PATH=", t1, t2);
      PrefixTransitive(t + "\nexport PATH=", t2, t3);
    } else if t2 != t1 {
      PathLineStart(t, "/usr/local/bin");
      PrefixTransitive(t + "\nexport PATH=", t2, t3);
    } else {
      PathLineStart(t, HomeBin);
    }
  }

  /** A text that continues with a PATH line does not continue with the prompt block. */
  lemma PromptBlockIsNotPathLine(t: string, r: string)
    requires IsPrefix(t + "\nexport PATH=", r)
    ensures !IsPrefix(t + "\n" + Ps1Line, r)
  {
    var n := |t| + 9;
    assert r[n] == (t + "\nexport PATH=")[n] == 'A';
    assert |t + "\n" + Ps1Line| > n && (t + "\n" + Ps1Line)[n] == 'S';
  }

  /** The prompt block follows the old profile exactly when the old profile did not
      contain `PS1=`; otherwise the first appended line is a PATH line. */
  lemma MergePromptBlock(profile: string, editor: string)
    ensures IsPrefix(profile + "\n" + Ps1Line, BashMerge(profile, editor)) <==> !Contains(profile, "PS1=")
  {
    var r := BashMerge(profile, editor);
    var t1 := AddPrompt(profile);
    var t2 := AddPaths(t1, PathFragments);
    var t3 := AddExports(t2, Exports(editor));
    PrefixTransitive(t2, t3, r);
    if Contains(profile, "PS1=") {
      PathsBeginWithPathLine(profile);
      PrefixTransitive(profile + "\nexport PATH=", t2, r);
      PromptBlockIsNotPathLine(profile, r);
    } else {
      PrefixTransitive(t1, t2, r);
    }
  }

  /** After the export steps every variable's name occurs in the text. */
  lemma {:induction false} ExportsAllMentioned(t: string, exports: seq<Export>)
    ensures forall k :: 0 <= k < |exports| ==> Contains(AddExports(t, exports), exports[k].variable)
    decreases |exports|
  {
    if exports != [] {
      var n := |exports| - 1;
      var before := AddExports(t, exports[..n]);
      ExportsAllMentioned(t, exports[..n]);
      forall k | 0 <= k < n ensures Contains(AddExports(t, exports), exports[k].variable) {
        assert exports[..n][k] == exports[k];
        ContainsExtends(before, AddExports(t, exports), exports[k].variable);
      }
    }
  }

  /** An export step whose variable's name already occurs adds nothing; so a text
      that mentions every name gets no export line at all. */
  lemma {:induction false} ExportsSkipPresent(t: string, exports: seq<Export>)
    requires forall k :: 0 <= k < |exports| ==> Contains(t, exports[k].variable)
    ensures AddExports(t, exports) == t
    decreases |exports|
  {
    if exports != [] {
      var n := |exports| - 1;
      forall k | 0 <= k < n ensures Contains(t, exports[..n][k].variable) {
        assert exports[..n][k] == exports[k];
      }
      ExportsSkipPresent(t, exports[..n]);
    }
  }

  /** After the merge, CLICOLOR, LSCOLORS, PAGER and EDITOR all occur in the profile. */
  lemma MergeMentionsEveryVariable(profile: string, editor: string)
    ensures forall k :: 0 <= k < |Exports(editor)| ==> Contains(BashMerge(profile, editor), Exports(editor)[k].variable)
  {
    var t2 := AddPaths(AddPrompt(profile), PathFragments);
    var t3 := AddExports(t2, Exports(editor));
    ExportsAllMentioned(t2, Exports(editor));
    forall k | 0 <= k < |Exports(editor)| ensures Contains(BashMerge(profile, editor), Exports(editor)[k].variable) {
      ContainsExtends(t3, BashMerge(profile, editor), Exports(editor)[k].variable);
    }
  }

  /** A profile that already names all four variables gets no export line. */
  lemma MergeSkipsPresentVariables(profile: string, editor: string)
    requires forall k :: 0 <= k < |Exports(editor)| ==> Contains(profile, Exports(editor)[k].variable)
    ensures BashMerge(profile, editor) == EnsureTrailingNewline(AddPaths(AddPrompt(profile), PathFragments))
  {
    var t2 := AddPaths(AddPrompt(profile), PathFragments);
    PrefixTransitive(profile, AddPrompt(profile), t2);
    forall k | 0 <= k < |Exports(editor)| ensures Contains(t2, Exports(editor)[k].variable) {
      ContainsExtends(profile, t2, Exports(editor)[k].variable);
    }
    ExportsSkipPresent(t2, Exports(editor));
  }

  /** A text that already has a `/usr/local/bin` PATH line but none for `/usr/local/sbin`
      gets exactly the two missing PATH lines, in order: `/usr/local/bin` is not repeated. */
  lemma PathsWithBinPresent(t: string)
    requires SameLineMatch(t, "/usr/local/bin") && !SameLineMatch(t, "/usr/local/sbin")
    ensures AddPaths(t, PathFragments) == t + PathLine("/usr/local/sbin") + PathLine(HomeBin)
  {
    LiteralFragments();
    AddPathsUnfold(t);
    PathStep(t, "/usr/local/sbin");
    var s1 := t + PathLine("/usr/local/sbin");
    PrefixOfAppend(t, PathLine("/usr/local/sbin"));
    SameLineExtends(t, s1, "/usr/local/bin");
    PathStep(s1, "/usr/local/bin");
    HomeBinAlwaysAppended(s1);
  }

  /** After the merge the prompt guard and the two literal PATH guards succeed. */
  lemma MergeSatisfiesGuards(profile: string, editor: string)
    ensures Contains(BashMerge(profile, editor), "PS1=")
    ensures Search(BashMerge(profile, editor), "/usr/local/sbin")
    ensures Search(BashMerge(profile, editor), "/usr/local/bin")
  {
    var t1 := AddPrompt(profile);
    var s1 := AddPath(t1, "/usr/local/sbin");
    var s2 := AddPath(s1, "/usr/local/bin");
    var s3 := AddPath(s2, HomeBin);
    var t3 := AddExports(s3, Exports(editor));
    AddPathsUnfold(t1);
    LiteralFragments();
    GuardsSurvive(t1, s1, s2, s3, t3, BashMerge(profile, editor));
  }

  /** Guards that succeed on a text still succeed on every text after it in a chain of appends. */
  lemma GuardsSurvive(t1: string, s1: string, s2: string, s3: string, t3: string, r: string)
    requires IsPrefix(t1, s1) && IsPrefix(s1, s2) && IsPrefix(s2, s3) && IsPrefix(s3, t3) && IsPrefix(t3, r)
    requires Contains(t1, "PS1=") && Search(s1, "/usr/local/sbin") && Search(s2, "/usr/local/bin")
    ensures Contains(r, "PS1=") && Search(r, "/usr/local/sbin") && Search(r, "/usr/local/bin")
  {
    PrefixTransitive(s3, t3, r);
    PrefixTransitive(s2, s3, r);
    PrefixTransitive(s1, s2, r);
    PrefixTransitive(t1, s1, r);
    ContainsExtends(t1, r, "PS1=");
    LiteralFragments();
    SearchExtends(s1, r, "/usr/local/sbin");
    SearchExtends(s2, r, "/usr/local/bin");
  }

  /** On a text where every guard but the `$HOME/bin` one already succeeds, the merge
      appends exactly the `$HOME/bin` line and a newline. */
  lemma SatisfiedMerge(t: string, editor: string)
    requires Contains(t, "PS1=") && Search(t, "/usr/local/sbin") && Search(t, "/usr/local/bin")
    requires forall k :: 0 <= k < |Exports(editor)| ==> Contains(t, Exports(editor)[k].variable)
    ensures BashMerge(t, editor) == t + PathLine(HomeBin) + "\n"
  {
    AddPathsUnfold(t);
    HomeBinAlwaysAppended(t);
    var u := t + PathLine(HomeBin);
    PrefixOfAppend(t, PathLine(HomeBin));
    forall k | 0 <= k < |Exports(editor)| ensures Contains(u, Exports(editor)[k].variable) {
      ContainsExtends(t, u, Exports(editor)[k].variable);
    }
    ExportsSkipPresent(u, Exports(editor));
    assert u[|u| - 1] == 'H';
  }

  /** Running the merge on its own output, with any editor, appends exactly one more
      `$HOME/bin` line and a newline: every other guard now finds what it looks for. */
  lemma SecondRunAddsOnlyHomeBin(profile: string, editor: string, editor2: string)
    ensures BashMerge(BashMerge(profile, editor), editor2)
         == BashMerge(profile, editor) + PathLine(HomeBin) + "\n"
  {
    var r := BashMerge(profile, editor);
    MergeSatisfiesGuards(profile, editor);
    MergeMentionsEveryVariable(profile, editor);
    forall k | 0 <= k < |Exports(editor2)| ensures Contains(r, Exports(editor2)[k].variable) {
      assert Exports(editor2)[k].variable == Exports(editor)[k].variable;
    }
    SatisfiedMerge(r, editor2);
  }

  // ---------------------------------------------------------------------------
  // The merge with the PATH fragments escaped, as `re.escape` would

  /** The PATH step with the fragment escaped, so that `$` stands for itself. The
      fragment's pattern matches afterwards, whatever the fragment. */
  function AddPathEscaped(t: string, fragment: string): (r: string)
    ensures IsPrefix(t, r)
    ensures SearchText(r, fragment)
  {
    if SearchText(t, fragment) then t
    else
      PrefixOfAppend(t, PathLine(fragment));
      PathLineSameLine(t, fragment);
      SearchTextIffSameLine(t + PathLine(fragment), fragment);
      t + PathLine(fragment)
  }

  /** The escaped PATH steps in list order. Afterwards every fragment's pattern matches. */
  function AddPathsEscaped(t: string, fragments: seq<string>): (r: string)
    ensures IsPrefix(t, r)
    ensures forall k :: 0 <= k < |fragments| ==> SearchText(r, fragments[k])
    decreases |fragments|
  {
    if fragments == [] then t
    else
      var n := |fragments| - 1;
      var before := AddPathsEscaped(t, fragments[..n]);
      var r := AddPathEscaped(before, fragments[n]);
      PrefixTransitive(t, before, r);
      forall k | 0 <= k < n ensures SearchText(r, fragments[k]) {
        assert fragments[..n][k] == fragments[k];
        SearchTextExtends(before, r, fragments[k]);
      }
      r
  }

  /** The profile merge as evidently intended: the same steps, with every PATH fragment
      matched as plain text. */
  function BashMergeEscaped(profile: string, editor: string): string
  {
    EnsureTrailingNewline(AddExports(AddPathsEscaped(AddPrompt(profile), PathFragments), Exports(editor)))
  }

  /** Escaped PATH steps whose patterns all match already add nothing. */
  lemma {:induction false} PathsEscapedSkipPresent(t: string, fragments: seq<string>)
    requires forall k :: 0 <= k < |fragments| ==> SearchText(t, fragments[k])
    ensures AddPathsEscaped(t, fragments) == t
    decreases |fragments|
  {
    if fragments != [] {
      var n := |fragments| - 1;
      forall k | 0 <= k < n ensures SearchText(t, fragments[..n][k]) {
        assert fragments[..n][k] == fragments[k];
      }
      PathsEscapedSkipPresent(t, fragments[..n]);
    }
  }

  /** After the corrected merge every guard succeeds and the text ends with a newline. */
  lemma EscapedMergeSatisfiesGuards(profile: string, editor: string)
    ensures Contains(BashMergeEscaped(profile, editor), "PS1=")
    ensures forall k :: 0 <= k < |PathFragments| ==> SearchText(BashMergeEscaped(profile, editor), PathFragments[k])
    ensures forall k :: 0 <= k < |Exports(editor)| ==> Contains(BashMergeEscaped(profile, editor), Exports(editor)[k].variable)
    ensures EndsWith(BashMergeEscaped(profile, editor), "\n")
  {
    var r := BashMergeEscaped(profile, editor);
    var t1 := AddPrompt(profile);
    var t2 := AddPathsEscaped(t1, PathFragments);
    var t3 := AddExports(t2, Exports(editor));
    PrefixTransitive(t2, t3, r);
    PrefixTransitive(t1, t2, r);
    ContainsExtends(t1, r, "PS1=");
    forall k | 0 <= k < |PathFragments| ensures SearchText(r, PathFragments[k]) {
      SearchTextExtends(t2, r, PathFragments[k]);
    }
    ExportsAllMentioned(t2, Exports(editor));
    forall k | 0 <= k < |Exports(editor)| ensures Contains(r, Exports(editor)[k].variable) {
      ContainsExtends(t3, r, Exports(editor)[k].variable);
    }
  }

  /** On a text where every guard succeeds and that ends with a newline, the corrected
      merge changes nothing. */
  lemma EscapedSatisfiedMerge(t: string, editor: string)
    requires Contains(t, "PS1=") && EndsWith(t, "\n")
    requires forall k :: 0 <= k < |PathFragments| ==> SearchText(t, PathFragments[k])
    requires forall k :: 0 <= k < |Exports(editor)| ==> Contains(t, Exports(editor)[k].variable)
    ensures BashMergeEscaped(t, editor) == t
  {
    PathsEscapedSkipPresent(t, PathFragments);
    ExportsSkipPresent(t, Exports(editor));
  }

  /** With the fragments escaped the profile merge is idempotent: a second run, with
      any editor, leaves the text as the first run wrote it. */
  lemma EscapedMergeIdempotent(profile: string, editor: string, editor2: string)
    ensures BashMergeEscaped(BashMergeEscaped(profile, editor), editor2) == BashMergeEscaped(profile, editor)
  {
    var r := BashMergeEscaped(profile, editor);
    EscapedMergeSatisfiesGuards(profile, editor);
    forall k | 0 <= k < |Exports(editor2)| ensures Contains(r, Exports(editor2)[k].variable) {
      assert Exports(editor2)[k].variable == Exports(editor)[k].variable;
    }
    EscapedSatisfiedMerge(r, editor2);
  }
}

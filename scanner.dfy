/** The scanner: classifies a project directory as a Node project, a Python
    project or neither, and gathers its metadata into a `ProjectInfo`.
    Reading the three files it looks at is not modelled: their presence and
    contents are given in a `ProjectDir`. */
module Scanner {
  import opened Wrappers
  import opened Text
  import opened Paths
  import ConfigPattern

  datatype ProjectType = Node | Python | Default

  /** The record handed to the renderer. `None` stands for a property the
      record does not have (`undefined`). */
  datatype ProjectInfo = ProjectInfo(
    projectName: string,
    description: Option<string>,
    license: Option<string>,
    projectType: ProjectType,
    usageExample: Option<string>,
    dependencies: Option<seq<string>>,
    author: Option<string>,
    repository: Option<string>,
    scripts: Option<seq<string>>)

  /** One entry of the manifest's `scripts` object. */
  datatype Script = Script(name: string, command: string)

  /** The fields of an already-parsed `package.json` that the scanner reads.
      A string field that is missing or `null` is `None`; `dependencies`
      holds the keys of the `dependencies` object and `scripts` the entries
      of the `scripts` object, both in declared order (a missing object is
      the empty sequence); `repositoryUrl` is `repository.url`. */
  datatype Manifest = Manifest(
    name: Option<string>,
    description: Option<string>,
    license: Option<string>,
    dependencies: seq<string>,
    author: Option<string>,
    repositoryUrl: Option<string>,
    scripts: seq<Script>)

  /** What reading one file of the project yields. `Unreadable` carries the
      message of the error raised while reading or parsing it, or while first
      using what was parsed: a `package.json` that parses to `null` fails at
      `pkg.scripts` with a `TypeError`, and is given as `Unreadable` with that
      error's message. */
  datatype FileRead<T> = Absent | Unreadable(message: string) | Present(content: T)

  /** A project directory as the scanner sees it: its path and the outcome of
      reading `package.json`, `requirements.txt` and `.git/config` in it. */
  datatype ProjectDir = ProjectDir(
    root: string,
    manifest: FileRead<Manifest>,
    requirements: FileRead<string>,
    gitConfig: FileRead<string>)

  /** JavaScript's `value || fallback` on an optional string: the empty string
      counts as missing. */
  function OrElse(value: Option<string>, fallback: string): (r: string)
    ensures value.Some? && value.value != [] ==> r == value.value
    ensures value.None? || value.value == [] ==> r == fallback
    ensures r != [] <== fallback != []
  {
    if value.Some? && value.value != [] then value.value else fallback
  }

  // ---------------------------------------------------------------------
  // Git remote detection
  // ---------------------------------------------------------------------

  const SshPrefix := "git@github.com:"
  const HttpsPrefix := "https://github.com/"

  /** The SSH form of a GitHub remote is rewritten to its HTTPS form. */
  function RewriteSsh(url: string): (r: string)
    ensures StartsWith(url, SshPrefix) ==> r == HttpsPrefix + url[|SshPrefix|..]
    ensures !StartsWith(url, SshPrefix) ==> r == url
  {
    if StartsWith(url, SshPrefix) then
      ReplaceFirstAtStart(url, SshPrefix, HttpsPrefix);
      ReplaceFirst(url, SshPrefix, HttpsPrefix)
    else url
  }

  /** `url.replace(/\.git$/, '')`: one `.git` at the very end is dropped. */
  function StripGitSuffix(url: string): (r: string)
    ensures r == url || r + ".git" == url
    ensures r + ".git" == url <==> EndsWith(url, ".git")
  {
    if EndsWith(url, ".git") then
      assert url[..|url| - 4] + ".git" == url;
      url[..|url| - 4]
    else
      url
  }

  /** The repository URL made from the captured value: trimmed, an SSH GitHub
      remote turned into its HTTPS form, and at most one `.git` dropped. No
      result is left in the SSH form; an SSH remote always ends up under
      `https://github.com/`, and any other remote ends up a prefix of its
      trimmed value. */
  function NormalizeRemote(raw: string): (r: string)
    ensures !StartsWith(r, SshPrefix)
    ensures StartsWith(Trim(raw), SshPrefix) ==> StartsWith(r, HttpsPrefix)
    ensures !StartsWith(Trim(raw), SshPrefix) ==> StartsWith(Trim(raw), r)
  {
    var t := Trim(raw);
    var u := RewriteSsh(t);
    if StartsWith(t, SshPrefix) then
      HttpsPrefixSurvivesStrip(t[|SshPrefix|..]);
      StripGitSuffix(u)
    else
      assert StartsWith(t, StripGitSuffix(u)) by {
        var r := StripGitSuffix(u);
        assert r == t || r == t[..|t| - 4];
      }
      StripGitSuffix(u)
  }

  /** Dropping `.git` from an HTTPS GitHub URL never cuts into the prefix. */
  lemma HttpsPrefixSurvivesStrip(rest: string)
    ensures StartsWith(StripGitSuffix(HttpsPrefix + rest), HttpsPrefix)
    ensures !StartsWith(StripGitSuffix(HttpsPrefix + rest), SshPrefix)
  {
    var u := HttpsPrefix + rest;
    if |rest| < 4 {
      var i := |u| - 4;
      assert u[i] == HttpsPrefix[i];
      assert HttpsPrefix[15] == 'c' && HttpsPrefix[16] == 'o' && HttpsPrefix[17] == 'm' && HttpsPrefix[18] == '/';
      assert u[i] != '.';
      assert u[i..][0] == u[i];
    }
    assert u[..|HttpsPrefix|] == HttpsPrefix;
    var r := StripGitSuffix(u);
    assert r[0] == HttpsPrefix[0] != SshPrefix[0];
  }

  /** `detectGitRepo`: the normalised capture of the leftmost match of
      `/url\s*=\s*(.+)/` in `.git/config`. That is usually the first `url`
      setting, but a `pushurl = ...` line, or `url` inside another key or value,
      matches as well when it comes first. A missing or unreadable file and a
      file without a match all give `None`; nothing here is an error. */
  function DetectGitRepo(config: FileRead<string>): (r: Option<string>)
    ensures !config.Present? ==> r.None?
    ensures config.Present? ==> (r.None? <==> ConfigPattern.UrlSetting(config.content).None?)
    ensures config.Present? && r.Some? ==> r == Some(NormalizeRemote(ConfigPattern.UrlSetting(config.content).value))
  {
    match config
    case Present(text) =>
      (match ConfigPattern.UrlSetting(text)
       case None => None
       case Some(url) => Some(NormalizeRemote(url)))
    case _ => None
  }

  /** A trimmed SSH remote gets the HTTPS prefix in place of the SSH one,
      before at most one `.git` is dropped. */
  lemma NormalizeSshRemote(raw: string)
    requires StartsWith(Trim(raw), SshPrefix)
    ensures NormalizeRemote(raw) == StripGitSuffix(HttpsPrefix + Trim(raw)[|SshPrefix|..])
  {
    ReplaceFirstAtStart(Trim(raw), SshPrefix, HttpsPrefix);
  }

  /** Any other remote is only trimmed and loses at most one `.git`. */
  lemma NormalizeOtherRemote(raw: string)
    requires !StartsWith(Trim(raw), SshPrefix)
    ensures NormalizeRemote(raw) == StripGitSuffix(Trim(raw))
  {
  }

  /** Only one `.git` is removed. */
  lemma StripGitSuffixOnce(url: string)
    ensures StripGitSuffix(url + ".git.git") == url + ".git"
  {
    assert (url + ".git.git")[..|url| + 4] == url + ".git";
  }

  /** The SSH and the HTTPS spelling of a GitHub remote, with or without the
      `.git` suffix, normalise to the same HTTPS URL. */
  lemma SshAndHttpsRemotesAgree(path: string)
    ensures NormalizeRemote(SshPrefix + path + ".git") == HttpsPrefix + path
    ensures NormalizeRemote(HttpsPrefix + path + ".git") == HttpsPrefix + path
  {
    SshRemote(path);
    HttpsRemote(path);
  }

  lemma SshRemote(path: string)
    ensures NormalizeRemote(SshPrefix + path + ".git") == HttpsPrefix + path
  {
    var ssh := SshPrefix + path + ".git";
    TrimUnchanged(ssh);
    assert StartsWith(ssh, SshPrefix) by { assert ssh[..|SshPrefix|] == SshPrefix; }
    ReplaceFirstAtStart(ssh, SshPrefix, HttpsPrefix);
    assert ssh[|SshPrefix|..] == path + ".git";
    assert HttpsPrefix + (path + ".git") == HttpsPrefix + path + ".git";
    StripGitSuffixOnly(HttpsPrefix + path);
  }

  lemma HttpsRemote(path: string)
    ensures NormalizeRemote(HttpsPrefix + path + ".git") == HttpsPrefix + path
  {
    var https := HttpsPrefix + path + ".git";
    TrimUnchanged(https);
    assert !StartsWith(https, SshPrefix) by { assert https[0] != SshPrefix[0]; }
    StripGitSuffixOnly(HttpsPrefix + path);
  }

  /** `git@github.com:acme/widget.git` becomes `https://github.com/acme/widget`. */
  lemma NormalizeRemoteExample()
    ensures NormalizeRemote("git@github.com:acme/widget.git") == "https://github.com/acme/widget"
  {
    assert "git@github.com:acme/widget.git" == SshPrefix + "acme/widget" + ".git";
    assert "https://github.com/acme/widget" == HttpsPrefix + "acme/widget";
    SshRemote("acme/widget");
  }

  /** A `.git` suffix is dropped. */
  lemma StripGitSuffixOnly(url: string)
    ensures StripGitSuffix(url + ".git") == url
  {
    assert (url + ".git")[..|url|] == url;
  }

  /** A config in which no `url` occurs before a line `url = <u>` yields the
      normalised `<u>`. */
  lemma DetectFromUrlLine(header: string, u: string, rest: string)
    requires ConfigPattern.UrlFree(header)
    requires u != [] && !IsWhitespace(u[0]) && NoLineTerminator(u)
    ensures DetectGitRepo(Present(header + "url = " + u + "\n" + rest)) == Some(NormalizeRemote(u))
  {
    var text := header + "url = " + u + "\n" + rest;
    var p := |header|;
    assert text[p..p + 6] == "url = " && text[p + 6..p + 6 + |u|] == u && text[p + 6 + |u|] == '\n';
    ConfigPattern.UrlLine(text, p, u);
    assert text[..p] == header;
    ConfigPattern.NoCaptureBefore(text, p);
    ConfigPattern.UrlSettingAt(text, p);
  }

  /** The `[core]` section `git clone` writes, up to the `url` of the `origin`
      remote: it holds `u`s but no `url`. */
  const CloneHeader := "[core]\n" + "\trepositoryformatversion = 0\n" + "\tfilemode = true\n" + "\tbare = false\n"
    + "\tlogallrefupdates = true\n" + "[remote \"origin\"]\n" + "\t"

  lemma CloneHeaderUrlFree()
    ensures ConfigPattern.UrlFree(CloneHeader)
  {
    var l1, l2, l3 := "[core]\n", "\trepositoryformatversion = 0\n", "\tfilemode = true\n";
    var l4, l5, l6 := "\tbare = false\n", "\tlogallrefupdates = true\n", "[remote \"origin\"]\n";
    ConfigPattern.UrlFreeWithoutUr(l1);
    ConfigPattern.UrlFreeWithoutUr(l2);
    ConfigPattern.UrlFreeWithoutUr(l3);
    ConfigPattern.UrlFreeWithoutUr(l4);
    ConfigPattern.UrlFreeWithoutUr(l5);
    ConfigPattern.UrlFreeWithoutUr(l6);
    ConfigPattern.UrlFreeWithoutUr("\t");
    ConfigPattern.UrlFreeAppend(l1, l2);
    ConfigPattern.UrlFreeAppend(l1 + l2, l3);
    ConfigPattern.UrlFreeAppend(l1 + l2 + l3, l4);
    ConfigPattern.UrlFreeAppend(l1 + l2 + l3 + l4, l5);
    ConfigPattern.UrlFreeAppend(l1 + l2 + l3 + l4 + l5, l6);
    ConfigPattern.UrlFreeAppend(l1 + l2 + l3 + l4 + l5 + l6, "\t");
  }

  const CloneTrailer := "\tfetch = +refs/heads/*:refs/remotes/origin/*\n[branch \"main\"]\n\tremote = origin\n\tmerge = refs/heads/main\n"

  /** The `.git/config` of a repository cloned from GitHub over SSH (its
      `[core]` settings, the `origin` remote with its `url` and `fetch` lines,
      and the `main` branch) reports the remote in its HTTPS form, without
      `.git`. */
  lemma DetectClonedRemote(path: string)
    requires NoLineTerminator(path)
    ensures DetectGitRepo(Present(CloneHeader + "url = " + (SshPrefix + path + ".git") + "\n" + CloneTrailer))
      == Some(HttpsPrefix + path)
  {
    var u := SshPrefix + path + ".git";
    assert NoLineTerminator(u);
    CloneHeaderUrlFree();
    DetectFromUrlLine(CloneHeader, u, CloneTrailer);
    SshAndHttpsRemotesAgree(path);
  }

  // ---------------------------------------------------------------------
  // requirements.txt
  // ---------------------------------------------------------------------

  /** `lines.map(s => s.trim())` */
  function TrimAll(lines: seq<string>): (r: seq<string>)
    ensures |r| == |lines|
    ensures forall i :: 0 <= i < |r| ==> Trimmed(r[i])
  {
    seq(|lines|, i requires 0 <= i < |lines| => Trim(lines[i]))
  }

  /** An entry without whitespace at either end (or an empty one). */
  predicate Trimmed(d: string) {
    d == [] || (!IsWhitespace(d[0]) && !IsWhitespace(d[|d| - 1]))
  }

  /** `lines.filter(Boolean)`: the non-empty lines, in order. */
  function DropBlank(lines: seq<string>): (r: seq<string>)
    ensures |r| <= |lines|
    ensures forall i :: 0 <= i < |r| ==> r[i] != []
  {
    if lines == [] then []
    else if lines[0] == [] then DropBlank(lines[1..])
    else [lines[0]] + DropBlank(lines[1..])
  }

  /** `DropBlank` keeps only lines it is given: trimmed lines stay trimmed. */
  lemma {:induction false} DropBlankTrimmed(lines: seq<string>)
    requires forall i :: 0 <= i < |lines| ==> Trimmed(lines[i])
    ensures forall i :: 0 <= i < |DropBlank(lines)| ==> Trimmed(DropBlank(lines)[i])
  {
    if lines != [] {
      DropBlankTrimmed(lines[1..]);
    }
  }

  /** The dependencies listed in `requirements.txt`: its lines, trimmed, with
      the blank ones dropped. */
  function ParseRequirements(text: string): (deps: seq<string>)
    ensures forall i :: 0 <= i < |deps| ==> deps[i] != []
  {
    DropBlank(TrimAll(Split(text, '\n')))
  }

  /** No dependency has whitespace at either end. */
  lemma ParseRequirementsTrimmed(text: string)
    ensures forall i :: 0 <= i < |ParseRequirements(text)| ==>
      var d := ParseRequirements(text)[i];
      !IsWhitespace(d[0]) && !IsWhitespace(d[|d| - 1])
  {
    var trimmed := TrimAll(Split(text, '\n'));
    assert forall i :: 0 <= i < |trimmed| ==> Trimmed(trimmed[i]);
    DropBlankTrimmed(trimmed);
  }

  lemma TrimAllAppend(a: seq<string>, b: seq<string>)
    ensures TrimAll(a + b) == TrimAll(a) + TrimAll(b)
  {
    var l, r := TrimAll(a + b), TrimAll(a) + TrimAll(b);
    assert |l| == |r|;
    forall i | 0 <= i < |l|
      ensures l[i] == r[i]
    {
      assert l[i] == Trim((a + b)[i]);
      if i < |a| {
        assert (a + b)[i] == a[i];
        assert r[i] == TrimAll(a)[i] == Trim(a[i]);
      } else {
        assert (a + b)[i] == b[i - |a|];
        assert r[i] == TrimAll(b)[i - |a|] == Trim(b[i - |a|]);
      }
    }
  }

  lemma {:induction false} DropBlankAppend(a: seq<string>, b: seq<string>)
    ensures DropBlank(a + b) == DropBlank(a) + DropBlank(b)
  {
    if a != [] {
      assert (a + b)[1..] == a[1..] + b;
      DropBlankAppend(a[1..], b);
    } else {
      assert a + b == b;
    }
  }

  /** The lines on either side of a line break are parsed independently, in order. */
  lemma ParseRequirementsAppend(a: string, b: string)
    ensures ParseRequirements(a + "\n" + b) == ParseRequirements(a) + ParseRequirements(b)
  {
    SplitAppend(a, b, '\n');
    TrimAllAppend(Split(a, '\n'), Split(b, '\n'));
    DropBlankAppend(TrimAll(Split(a, '\n')), TrimAll(Split(b, '\n')));
  }

  /** A single line contributes its trimmed text, unless that is empty. */
  lemma ParseRequirementsLine(line: string)
    requires '\n' !in line
    ensures ParseRequirements(line) == if Trim(line) == [] then [] else [Trim(line)]
  {
    SplitNoSeparator(line, '\n');
  }

  /** A leading blank line contributes nothing. */
  lemma LeadingBlankLine(q: string)
    ensures ParseRequirements("\n" + q) == ParseRequirements(q)
  {
    assert [] + "\n" + q == "\n" + q;
    ParseRequirementsAppend([], q);
    EmptyRequirements();
  }

  /** An empty file lists nothing. */
  lemma EmptyRequirements()
    ensures ParseRequirements([]) == []
  {
    ParseRequirementsLine([]);
  }

  /** A blank line between two parts of the file contributes nothing. */
  lemma BlankLineBetween(p: string, q: string)
    ensures ParseRequirements(p + "\n\n" + q) == ParseRequirements(p) + ParseRequirements(q)
  {
    BreakTwice(p, q);
    ParseRequirementsAppend(p, "\n" + q);
    LeadingBlankLine(q);
  }

  lemma BreakTwice(p: string, q: string)
    ensures p + "\n\n" + q == p + "\n" + ("\n" + q)
  {
  }

  /** A one-line file holding an entry without surrounding whitespace lists exactly that entry. */
  lemma SingleEntry(p: string)
    requires '\n' !in p
    requires p != [] && !IsWhitespace(p[0]) && !IsWhitespace(p[|p| - 1])
    ensures ParseRequirements(p) == [p]
  {
    TrimUnchanged(p);
    ParseRequirementsLine(p);
  }

  /** A blank line between two entries is dropped and the order is kept. */
  lemma BlankLineDropped(p: string, q: string)
    requires '\n' !in p && '\n' !in q
    requires p != [] && !IsWhitespace(p[0]) && !IsWhitespace(p[|p| - 1])
    requires q != [] && !IsWhitespace(q[0]) && !IsWhitespace(q[|q| - 1])
    ensures ParseRequirements(p + "\n\n" + q) == [p, q]
  {
    BlankLineBetween(p, q);
    SingleEntry(p);
    SingleEntry(q);
  }

  /** `"flask\n\nrequests"` lists `flask` and then `requests`. */
  lemma ParseRequirementsExample()
    ensures ParseRequirements("flask\n\nrequests") == ["flask", "requests"]
  {
    assert "flask\n\nrequests" == "flask" + "\n\n" + "requests";
    BlankLineDropped("flask", "requests");
  }

  // ---------------------------------------------------------------------
  // Usage example
  // ---------------------------------------------------------------------

  /** The command of the first script called `name`, if any. */
  function CommandOf(scripts: seq<Script>, name: string): (r: Option<string>)
    ensures r.Some? ==> exists i :: (0 <= i < |scripts| && scripts[i] == Script(name, r.value) &&
      forall j :: 0 <= j < i ==> scripts[j].name != name)
    ensures r.None? ==> forall i :: 0 <= i < |scripts| ==> scripts[i].name != name
  {
    if scripts == [] then None
    else if scripts[0].name == name then Some(scripts[0].command)
    else CommandOf(scripts[1..], name)
  }

  /** `pkg.scripts?.[name]` is truthy: the script exists with a non-empty command. */
  function HasScript(scripts: seq<Script>, name: string): (r: bool)
    ensures r ==> exists i :: 0 <= i < |scripts| && scripts[i].name == name && scripts[i].command != []
    ensures (forall i :: 0 <= i < |scripts| ==> scripts[i].name != name) ==> !r
    ensures (exists i :: (0 <= i < |scripts| && scripts[i].name == name && scripts[i].command != [] &&
      forall j :: 0 <= j < i ==> scripts[j].name != name)) ==> r
  {
    CommandOf(scripts, name).Some? && CommandOf(scripts, name).value != []
  }

  /** The script the usage example runs: `dev`, else `start`, else the first
      declared script. */
  function UsageScript(scripts: seq<Script>): (r: Option<string>)
    ensures r.None? <==> scripts == []
    ensures r.Some? ==> exists i :: 0 <= i < |scripts| && scripts[i].name == r.value
    ensures HasScript(scripts, "dev") ==> r == Some("dev")
    ensures !HasScript(scripts, "dev") && HasScript(scripts, "start") ==> r == Some("start")
    ensures !HasScript(scripts, "dev") && !HasScript(scripts, "start") && scripts != [] ==> r == Some(scripts[0].name)
  {
    if HasScript(scripts, "dev") then Some("dev")
    else if HasScript(scripts, "start") then Some("start")
    else if scripts != [] then Some(scripts[0].name)
    else None
  }

  /** The install-and-run instruction of a Node project. */
  function UsageExample(scripts: seq<Script>): (r: string)
    ensures HasScript(scripts, "dev") ==> r == "npm install && npm run dev"
    ensures !HasScript(scripts, "dev") && HasScript(scripts, "start") ==> r == "npm install && npm run start"
    ensures !HasScript(scripts, "dev") && !HasScript(scripts, "start") && scripts != [] && scripts[0].name != [] ==>
      r == "npm install && npm run " + scripts[0].name
    ensures !HasScript(scripts, "dev") && !HasScript(scripts, "start") && (scripts == [] || scripts[0].name == []) ==>
      r == "npm install && npm start"
  {
    match UsageScript(scripts)
    case Some(script) => if script != [] then "npm install && npm run " + script else "npm install && npm start"
    case None => "npm install && npm start"
  }

  /** A manifest whose `dev` script has a command is run with `npm run dev`,
      whatever other scripts it declares. */
  lemma DevScriptUsage(scripts: seq<Script>, i: nat)
    requires i < |scripts| && scripts[i].name == "dev" && scripts[i].command != []
    requires forall j :: 0 <= j < i ==> scripts[j].name != "dev"
    ensures UsageExample(scripts) == "npm install && npm run dev"
  {
    assert HasScript(scripts, "dev");
  }

  function ScriptNames(scripts: seq<Script>): (names: seq<string>)
    ensures |names| == |scripts|
    ensures forall i :: 0 <= i < |names| ==> names[i] == scripts[i].name
  {
    if scripts == [] then [] else [scripts[0].name] + ScriptNames(scripts[1..])
  }

  // ---------------------------------------------------------------------
  // The scan
  // ---------------------------------------------------------------------

  const ScanErrorPrefix := "Failed to scan project: "

  /** The record of a Node project. Every optional field but `author` is set,
      the license is never empty, and there is one script name per script. */
  function NodeInfo(pkg: Manifest, root: string, repository: Option<string>): (info: ProjectInfo)
    ensures info.projectType == Node
    ensures info.description.Some? && info.usageExample.Some? && info.dependencies.Some?
    ensures info.license.Some? && info.license.value != []
    ensures info.scripts.Some? && |info.scripts.value| == |pkg.scripts|
    ensures info.repository == repository || info.repository == pkg.repositoryUrl
  {
    ProjectInfo(
      projectName := OrElse(pkg.name, Basename(root)),
      description := Some(OrElse(pkg.description, "")),
      license := Some(OrElse(pkg.license, "MIT")),
      projectType := Node,
      usageExample := Some(UsageExample(pkg.scripts)),
      dependencies := Some(pkg.dependencies),
      author := pkg.author,
      repository := if pkg.repositoryUrl.Some? && pkg.repositoryUrl.value != [] then pkg.repositoryUrl else repository,
      scripts := Some(ScriptNames(pkg.scripts)))
  }

  /** The record of a Python project: every dependency is a non-empty,
      trimmed line of `requirements.txt`. */
  function PythonInfo(requirements: string, root: string, repository: Option<string>): (info: ProjectInfo)
    ensures info.projectType == Python
    ensures info.dependencies.Some?
    ensures forall i :: 0 <= i < |info.dependencies.value| ==>
      info.dependencies.value[i] != [] && Trimmed(info.dependencies.value[i])
    ensures info.license == Some("MIT") && info.author.None? && info.scripts.None?
    ensures info.repository == repository
  {
    ParseRequirementsTrimmed(requirements);
    ProjectInfo(
      projectName := Basename(root),
      description := Some(""),
      license := Some("MIT"),
      projectType := Python,
      usageExample := Some("pip install -r requirements.txt && python main.py"),
      dependencies := Some(ParseRequirements(requirements)),
      author := None,
      repository := repository,
      scripts := None)
  }

  /** The record of a directory with neither manifest: no dependencies. */
  function DefaultInfo(root: string, repository: Option<string>): (info: ProjectInfo)
    ensures info.projectType == Default
    ensures info.dependencies == Some([])
    ensures info.license == Some("MIT") && info.author.None? && info.scripts.None?
    ensures info.repository == repository
  {
    ProjectInfo(
      projectName := Basename(root),
      description := Some(""),
      license := Some("MIT"),
      projectType := Default,
      usageExample := Some("See examples in README"),
      dependencies := Some([]),
      author := None,
      repository := repository,
      scripts := None)
  }

  /** `scanProject`: the first of `package.json` and `requirements.txt` that
      exists decides the project type; a read that fails is reported as an
      error whose message starts with `ScanErrorPrefix`. The git remote is
      looked up first and never causes an error. */
  function ScanProject(dir: ProjectDir): (r: Result<ProjectInfo, string>)
    ensures r.Failure? <==> dir.manifest.Unreadable? || (dir.manifest.Absent? && dir.requirements.Unreadable?)
    ensures r.Failure? ==> StartsWith(r.error, ScanErrorPrefix)
    ensures r.Success? ==> (r.value.projectType == Node <==> dir.manifest.Present?)
    ensures r.Success? ==> (r.value.projectType == Python <==> dir.manifest.Absent? && dir.requirements.Present?)
    ensures r.Success? ==> (r.value.projectType == Default <==> dir.manifest.Absent? && dir.requirements.Absent?)
    ensures r.Success? ==> r.value.dependencies.Some? && r.value.description.Some? && r.value.license.Some?
  {
    Classify(dir, DetectGitRepo(dir.gitConfig))
  }

  /** The part of the scan after the git remote is known. */
  function Classify(dir: ProjectDir, repository: Option<string>): (r: Result<ProjectInfo, string>)
    ensures r.Failure? <==> dir.manifest.Unreadable? || (dir.manifest.Absent? && dir.requirements.Unreadable?)
    ensures r.Success? && !(dir.manifest.Present? && dir.manifest.content.repositoryUrl.Some?) ==>
      r.value.repository == repository
  {
    match dir.manifest
    case Unreadable(message) => Failure(ScanErrorPrefix + message)
    case Present(pkg) => Success(NodeInfo(pkg, dir.root, repository))
    case Absent =>
      match dir.requirements
      case Unreadable(message) => Failure(ScanErrorPrefix + message)
      case Present(text) => Success(PythonInfo(text, dir.root, repository))
      case Absent => Success(DefaultInfo(dir.root, repository))
  }

  /** The record of a Node project: manifest fields with their defaults. */
  lemma NodeScan(dir: ProjectDir)
    requires dir.manifest.Present?
    ensures var pkg := dir.manifest.content;
      && ScanProject(dir).Success?
      && var info := ScanProject(dir).value;
      && info.projectName == OrElse(pkg.name, Basename(dir.root))
      && info.description == Some(OrElse(pkg.description, ""))
      && info.license == Some(OrElse(pkg.license, "MIT"))
      && info.dependencies == Some(pkg.dependencies)
      && info.scripts == Some(ScriptNames(pkg.scripts))
      && info.usageExample == Some(UsageExample(pkg.scripts))
      && info.author == pkg.author
  {
  }

  /** Python and unclassified projects are named after the directory and
      licensed MIT. */
  lemma NonNodeScan(dir: ProjectDir)
    requires dir.manifest.Absent? && !dir.requirements.Unreadable?
    ensures ScanProject(dir).Success?
    ensures var info := ScanProject(dir).value;
      && info.projectName == Basename(dir.root)
      && info.license == Some("MIT")
      && info.description == Some("")
      && info.usageExample == Some(if dir.requirements.Present? then "pip install -r requirements.txt && python main.py" else "See examples in README")
      && info.author.None? && info.scripts.None?
      && info.dependencies == Some(if dir.requirements.Present? then ParseRequirements(dir.requirements.content) else [])
  {
  }

  /** Every successful scan records a non-empty license. */
  lemma ScanLicenseNonEmpty(dir: ProjectDir)
    requires ScanProject(dir).Success?
    ensures ScanProject(dir).value.license.Some? && ScanProject(dir).value.license.value != []
  {
  }

  /** With a manifest, `requirements.txt` is not looked at. */
  lemma ManifestTakesPriority(dir: ProjectDir, requirements: FileRead<string>)
    requires dir.manifest.Present?
    ensures ScanProject(dir.(requirements := requirements)) == ScanProject(dir)
  {
  }

  /** A non-empty `repository.url` in the manifest wins over the git remote;
      otherwise the git remote is carried unchanged. */
  lemma RepositoryPrecedence(dir: ProjectDir)
    requires ScanProject(dir).Success?
    ensures var url := if dir.manifest.Present? then dir.manifest.content.repositoryUrl else None;
      ScanProject(dir).value.repository ==
        if url.Some? && url.value != [] then url else DetectGitRepo(dir.gitConfig)
  {
  }

  /** The git configuration cannot make a scan fail, and it affects nothing
      but the `repository` field. */
  lemma GitConfigOnlyAffectsRepository(dir: ProjectDir, gitConfig: FileRead<string>)
    ensures var other := ScanProject(dir.(gitConfig := gitConfig));
      && other.Success? == ScanProject(dir).Success?
      && (other.Success? ==> other.value.(repository := None) == ScanProject(dir).value.(repository := None))
  {
    ClassifyIgnoresRepository(dir, dir.(gitConfig := gitConfig), DetectGitRepo(dir.gitConfig), DetectGitRepo(gitConfig));
  }

  lemma ClassifyIgnoresRepository(dir: ProjectDir, dir': ProjectDir, r: Option<string>, r': Option<string>)
    requires dir' == dir.(gitConfig := dir'.gitConfig)
    ensures Classify(dir', r').Success? == Classify(dir, r).Success?
    ensures Classify(dir', r').Success? ==> Classify(dir', r').value.(repository := None) == Classify(dir, r).value.(repository := None)
  {
    match dir.manifest
    case Present(pkg) => NodeInfoRepository(pkg, dir.root, r, r');
    case Unreadable(_) =>
    case Absent =>
      match dir.requirements
      case Present(text) => PythonInfoRepository(text, dir.root, r, r');
      case _ =>
  }

  lemma NodeInfoRepository(pkg: Manifest, root: string, r: Option<string>, r': Option<string>)
    ensures NodeInfo(pkg, root, r).(repository := None) == NodeInfo(pkg, root, r').(repository := None)
  {
  }

  lemma PythonInfoRepository(text: string, root: string, r: Option<string>, r': Option<string>)
    ensures PythonInfo(text, root, r).(repository := None) == PythonInfo(text, root, r').(repository := None)
  {
  }
}

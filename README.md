# autoreadme, modelled in Dafny

autoreadme writes a `README.md` for a project directory. It works in two steps.

The **scanner** (`src/scanner.ts`) decides what kind of project the directory holds:
- `package.json` makes it a Node project;
- otherwise `requirements.txt` makes it a Python project;
- otherwise it is a `default` project.

It then gathers a `ProjectInfo` record: the name, description, license, usage example, dependencies, author, script names and repository URL. The repository URL comes from the manifest, or else from the first match of the pattern `/url\s*=\s*(.+)/` in `.git/config`. That match is usually the first `url` setting. But a `pushurl = ...` line matches too, as does `url` inside another key or value, if it comes first. An SSH GitHub remote is rewritten to its HTTPS form, and one trailing `.git` is dropped.

The **generator** (`src/generator.ts`) then:
- picks the template, where `default` means "the template named after the project type";
- falls back to `default.hbs` when that template does not exist;
- builds a build badge and a license badge;
- renders the template into `<root>/README.md`.

The model is pure Dafny functions and lemmas, one module per concern:

| file | module | what it holds |
|---|---|---|
| `wrappers.dfy` | `Wrappers` | `Option` and `Result` |
| `text.dfy` | `Text` | the JavaScript string primitives the core uses: `trim` (ECMAScript white space and line terminators), `split`, `indexOf`, `replace` with a string pattern |
| `paths.dfy` | `Paths` | POSIX `path.basename`, and `path.join` of an already normalised directory and a file name |
| `uri_encoding.dfy` | `UriEncoding` | `encodeURIComponent` (UTF-8 bytes, upper-case `%XY` escapes) and the percent-decoding that undoes it |
| `config_pattern.dfy` | `ConfigPattern` | the regular expression `/url\s*=\s*(.+)/` with ECMAScript matching: leftmost match, greedy `\s*` that crosses line ends, backtracking |
| `scanner.dfy` | `Scanner` | `ProjectInfo`, `detectGitRepo`, `scanProject` |
| `generator.dfy` | `Generator` | template choice, `loadTemplate`, badges, output path, `generateReadme` |

Files are not read. Each file the core reads is given as a `FileRead`:
- `Absent`: the file does not exist;
- `Unreadable(message)`: reading or parsing it, or first using what was parsed, raised an error with that message;
- `Present(content)`: the file was read.

`package.json` is given as an already-parsed `Manifest`. The template directory is a map from file name to `FileRead`. Handlebars rendering is a function parameter `render`. `GenerateReadme` does not write the file: it returns the path and the content to write.

Three behaviours of the code are worth stating, and the model keeps each:
- the output is always `<root>/README.md` (src/generator.ts:26), and no option changes it;
- a missing `default.hbs` surfaces as the error from reading it (src/generator.ts:9); here that is `TemplateMissing`, and there is no separate template-not-found check;
- the git remote is detected before the manifest is read (src/scanner.ts:39), and detecting it never fails.

## Model

| member | source | states |
|---|---|---|
| Scanner.ScanProject | src/scanner.ts:37-88 | The scan fails exactly when the manifest is unreadable, or when it is absent and `requirements.txt` is unreadable. A failure's message starts with `Failed to scan project: `. On success the type is `Node` iff the manifest exists, `Python` iff only `requirements.txt` exists, and `Default` iff neither exists. `dependencies`, `description` and `license` are always present. |
| Scanner.NodeScan | src/scanner.ts:42-58 | A Node project takes its fields from the manifest: the name falls back to the directory basename, the license to `MIT`. The description falls back to `""`. Dependencies are the manifest's dependency keys, scripts are the script names, and the author is passed through unchanged. |
| Scanner.NonNodeScan | src/scanner.ts:60-83 | Python and default projects are named after the directory basename and licensed `MIT`, with an empty description and no author or scripts. Their dependencies are the parsed requirements for Python and `[]` for default. The usage example is `pip install -r requirements.txt && python main.py` for Python and `See examples in README` for default. |
| Scanner.ManifestTakesPriority | src/scanner.ts:41-58 | When a manifest exists, the result does not depend on `requirements.txt` at all. |
| Scanner.RepositoryPrecedence | src/scanner.ts:55 | A non-empty `repository.url` in the manifest wins. Otherwise, and for Python and default projects, the repository is the detected git remote. |
| Scanner.ScanLicenseNonEmpty | src/scanner.ts:50 | Every successful scan records a license that is present and non-empty. |
| Scanner.GitConfigOnlyAffectsRepository | src/scanner.ts:39 | Changing `.git/config` cannot make a scan fail or succeed, and changes no field other than `repository`. |
| Scanner.OrElse | src/scanner.ts:48-50 | JavaScript `value \|\| fallback` on an optional string: the value when it is present and non-empty, otherwise the fallback. A non-empty fallback makes the result non-empty. |
| Scanner.Classify | src/scanner.ts:41-83 | It fails exactly when the manifest is unreadable, or absent with an unreadable `requirements.txt`. Unless the manifest has a `repository.url`, the repository is the detected one passed in. |
| Scanner.NodeInfo | src/scanner.ts:47-57 | A Node record has type `node`; its description, usage example and dependencies are set; its license is non-empty; it has one script name per script; and its repository is the manifest's or the detected one. |
| Scanner.PythonInfo | src/scanner.ts:64-72 | A Python record has type `python`, license `MIT`, no author or scripts, and the detected repository. Every dependency is non-empty and trimmed. |
| Scanner.DefaultInfo | src/scanner.ts:75-83 | A default record has type `default`, no dependencies, license `MIT`, no author or scripts, and the detected repository. |
| Scanner.HasScript | src/scanner.ts:45 | `pkg.scripts?.[name]` is truthy exactly when the first script of that name has a non-empty command. It is never truthy when no script has that name. |
| Scanner.UsageScript | src/scanner.ts:44-45 | The choice is `dev` if it has a non-empty command, else `start`, else the first declared script. It is always the name of a declared script, and `None` exactly when there are no scripts. |
| Scanner.UsageExample | src/scanner.ts:44-52 | The command runs `dev` if that script has a non-empty command, else `start`, else the first declared script if its name is non-empty. Otherwise it is `npm install && npm start`. |
| Scanner.CommandOf | src/scanner.ts:45 | The command is that of the first script with that name, and `None` means no script has that name. |
| Scanner.DevScriptUsage | src/scanner.ts:45-52 | A manifest whose `dev` script has a command gets the usage example `npm install && npm run dev`, whatever other scripts it declares. |
| Scanner.ScriptNames | src/scanner.ts:44 | The script names, in declared order, one for each script. |
| Scanner.DetectGitRepo | src/scanner.ts:16-35 | A missing or unreadable config gives `None`. A present config gives `None` exactly when the pattern does not match, and otherwise gives the normalised first capture. |
| Scanner.StripGitSuffix | src/scanner.ts:27 | The result is the input, or the input less one trailing `.git`, and the latter happens exactly when the input ends in `.git`. |
| Scanner.RewriteSsh | src/scanner.ts:24-26 | A URL starting with `git@github.com:` has that prefix replaced by `https://github.com/`. Any other URL is unchanged. |
| Scanner.NormalizeRemote | src/scanner.ts:23-27 | No result is left in the SSH form. An SSH remote always ends up under `https://github.com/`. Any other remote becomes a prefix of its trimmed value. |
| Scanner.HttpsPrefixSurvivesStrip | src/scanner.ts:26-27 | Dropping `.git` from `https://github.com/...` never cuts into the prefix. |
| Scanner.NormalizeSshRemote | src/scanner.ts:23-26 | A trimmed URL starting with `git@github.com:` has that prefix replaced by `https://github.com/` before the `.git` is stripped. |
| Scanner.NormalizeOtherRemote | src/scanner.ts:23-27 | Any other URL is only trimmed and has at most one `.git` stripped. |
| Scanner.StripGitSuffixOnce | src/scanner.ts:27 | Only one `.git` is removed: `x.git.git` becomes `x.git`. |
| Scanner.StripGitSuffixOnly | src/scanner.ts:27 | A trailing `.git` is removed. |
| Scanner.SshAndHttpsRemotesAgree | src/scanner.ts:23-27 | `git@github.com:P.git` and `https://github.com/P.git` both normalise to `https://github.com/P`. |
| Scanner.SshRemote | src/scanner.ts:23-27 | `git@github.com:P.git` normalises to `https://github.com/P`. |
| Scanner.HttpsRemote | src/scanner.ts:23-27 | `https://github.com/P.git` normalises to `https://github.com/P`. |
| Scanner.NormalizeRemoteExample | src/scanner.ts:23-28 | `git@github.com:acme/widget.git` becomes `https://github.com/acme/widget`. |
| Scanner.DetectFromUrlLine | src/scanner.ts:19-28 | A config in which no `url` occurs before a line `url = <u>` yields the normalised `<u>`, when `<u>` starts with a visible character. |
| Scanner.DetectClonedRemote | src/scanner.ts:16-35 | The `.git/config` that `git clone` writes for a GitHub repository cloned over SSH yields `https://github.com/P`. That config has the `[core]` settings, `[remote "origin"]` with `url = git@github.com:P.git` and its `fetch` line, and a `[branch "main"]` section. |
| Scanner.CloneHeaderUrlFree | src/scanner.ts:21 | The `[core]` section of a cloned repository holds `u`s (`true`, `logallrefupdates`) but no `url`, so no match starts there. |
| Scanner.ParseRequirements | src/scanner.ts:63 | Every dependency is non-empty. |
| Scanner.ParseRequirementsTrimmed | src/scanner.ts:63 | No dependency has whitespace at either end. |
| Scanner.DropBlank | src/scanner.ts:63 | `filter(Boolean)` keeps no empty line and never adds lines. |
| Scanner.DropBlankTrimmed | src/scanner.ts:63 | Filtering trimmed lines leaves only trimmed lines. |
| Scanner.ParseRequirementsAppend | src/scanner.ts:63 | The lines on either side of a line break are parsed independently and stay in order. |
| Scanner.ParseRequirementsLine | src/scanner.ts:63 | A single line gives its trimmed text, or nothing when that is empty. |
| Scanner.EmptyRequirements | src/scanner.ts:63 | An empty file lists no dependencies. |
| Scanner.LeadingBlankLine | src/scanner.ts:63 | A leading line break contributes nothing. |
| Scanner.BlankLineBetween | src/scanner.ts:63 | A blank line between two parts of the file contributes nothing. |
| Scanner.SingleEntry | src/scanner.ts:63 | A one-line file whose entry has no surrounding whitespace lists exactly that entry. |
| Scanner.BlankLineDropped | src/scanner.ts:62-70 | `p\n\nq` lists `p` then `q` for two such entries. |
| Scanner.ParseRequirementsExample | src/scanner.ts:62-70 | `flask\n\nrequests` lists `flask` then `requests`. |
| Scanner.TrimAllAppend | src/scanner.ts:63 | Trimming each line commutes with concatenating the lists. |
| Scanner.TrimAll | src/scanner.ts:63 | `map(trim)` keeps one entry per line, and no entry has whitespace at either end. |
| Scanner.DropBlankAppend | src/scanner.ts:63 | Filtering commutes with concatenating the lists. |
| ConfigPattern.UrlSetting | src/scanner.ts:21 | The result is the capture at the leftmost matching position, so no earlier position matches. It is `None` exactly when no position matches. |
| ConfigPattern.MatchAtCorrect | src/scanner.ts:21 | The match reported at a position is a match of the pattern, and it is the one greedy backtracking prefers. `None` is reported exactly when no match starts there. |
| ConfigPattern.MatchAt | src/scanner.ts:21 | A reported span is a match of the pattern at `p`, with `=` at the first non-blank character after `url`. |
| ConfigPattern.CaptureAt | src/scanner.ts:21-23 | A capture exists exactly when the pattern matches at `p`. It is non-empty and holds no line terminator, as `(.+)` requires. |
| ConfigPattern.MatchAtGreedy | src/scanner.ts:21 | No match at that position starts group 1 later, or ends it later from the same start. |
| ConfigPattern.MatchAtComplete | src/scanner.ts:21 | When nothing is reported at a position, the pattern cannot match there. |
| ConfigPattern.FirstMatch | src/scanner.ts:21 | A reported match lies at or after the starting position. |
| ConfigPattern.FirstMatchLeftmost | src/scanner.ts:21 | No match starts before the reported one. |
| ConfigPattern.FirstMatchNone | src/scanner.ts:21 | Reporting nothing means that no position matches. |
| ConfigPattern.SkipToCandidate | src/scanner.ts:21 | The search passes over characters other than `u`. |
| ConfigPattern.UrlLine | src/scanner.ts:21 | A line `url = <u>` captures `<u>` when `<u>` starts with a visible character. |
| ConfigPattern.UrlFreeWithoutUr | src/scanner.ts:21 | Text in which no `u` is followed by `r` contains no `url`. |
| ConfigPattern.UrlFreeAppend | src/scanner.ts:21 | Two `url`-free texts joined contain no `url` when the second does not start with `r` or `l`. |
| ConfigPattern.NoCaptureBefore | src/scanner.ts:21 | No match starts inside a `url`-free prefix followed by a character other than `r` and `l`. |
| ConfigPattern.UrlSettingAt | src/scanner.ts:21-23 | When `p` matches and no earlier position does, the setting is the capture at `p`. |
| Text.Trim | src/scanner.ts:23 | The result neither starts nor ends with whitespace. |
| Text.TrimMargins | src/scanner.ts:63 | The result is the input less whitespace-only margins, the left one being the input's leading whitespace. It is empty exactly when the input is all whitespace. |
| Text.TrimUnchanged | src/scanner.ts:23 | A string without whitespace at either end is unchanged. |
| Text.Split | src/scanner.ts:63 | `split` always yields at least one piece. |
| Text.SplitPieces | src/scanner.ts:63 | No piece holds the separator, and joining the pieces gives back the text. |
| Text.SplitJoin | src/scanner.ts:63 | Splitting undoes joining separator-free pieces. |
| Text.SplitAppend | src/scanner.ts:63 | Splitting at a separator splits the two sides independently. |
| Text.SplitNoSeparator | src/scanner.ts:63 | Text without the separator is one piece. |
| Text.IndexOf | src/scanner.ts:25 | The result is the first position where the pattern occurs, and `None` exactly when it occurs nowhere. |
| Text.ReplaceFirstAtStart | src/scanner.ts:25 | When the text starts with the pattern, `replace` rewrites that prefix. |
| Text.ReplaceFirst | src/scanner.ts:25 | With no occurrence the text is unchanged. Otherwise the first occurrence becomes `rep`, and the text before and after it is kept. |
| Paths.Basename | src/scanner.ts:48 | The basename holds no `/`. |
| Paths.StripTrailingSlashes | src/scanner.ts:48 | The result is the longest prefix not ending in `/`, and it drops only `/` characters. |
| Paths.LastSegment | src/scanner.ts:48 | The result is a `/`-free suffix preceded by `/` unless it is the whole path. |
| Paths.BasenameOfJoin | src/generator.ts:26 | Joining a plain file name onto a directory gives a path that starts with the directory and whose basename is that name. |
| Paths.JoinPath | src/generator.ts:26 | The result starts with the directory and ends with the file name. A non-empty directory is separated from the name by `/`, and at most one character is added. |
| UriEncoding.EncodeUriComponent | src/generator.ts:22 | The encoding holds only unreserved characters and `%`. |
| UriEncoding.PercentEscapes | src/generator.ts:22 | Each byte becomes three characters, `%` and two hexadecimal digits. |
| UriEncoding.DecodeEncode | src/generator.ts:22 | Percent-decoding the encoding gives back the UTF-8 bytes of the text. |
| UriEncoding.EncodeUnreserved | src/generator.ts:22 | Text made of unreserved characters only is its own encoding. |
| UriEncoding.Utf8Bytes | src/generator.ts:22 | A character is one to four bytes, and one byte exactly for ASCII. |
| Generator.TypeName | src/generator.ts:14 | The type is spelled `node`, `python` or `default`, and `default` only for unclassified projects. |
| Generator.TypeNameInjective | src/generator.ts:14 | Distinct types have distinct names. |
| Generator.EffectiveTemplateName | src/generator.ts:14 | `default` becomes the project type's name, and any other name passes through verbatim. |
| Generator.DefaultTemplateChosen | src/generator.ts:14 | The effective name is `default` exactly when `default` is asked for by an unclassified project. |
| Generator.LoadTemplate | src/generator.ts:6-10 | An existing `<name>.hbs` is read, and an error reading it names that file. A missing one falls back to `default.hbs`, which is read, fails to read, or is missing. |
| Generator.LoadTemplateSucceeds | src/generator.ts:6-10 | Loading succeeds exactly when `<name>.hbs` can be read, or it is missing and `default.hbs` can be read. |
| Generator.FallbackConsistent | src/generator.ts:7-9 | Asking for a missing template gives the same result as asking for `default`. |
| Generator.LicenseBadge | src/generator.ts:22 | The badge is the fixed prefix, then the license field, then the fixed suffix. |
| Generator.LicenseBadgeDecodes | src/generator.ts:22 | The badge's license field holds only unreserved characters and `%`, and decodes to the UTF-8 bytes of the license, which is `MIT` when missing or empty. |
| Generator.LicenseBadgeVerbatim | src/generator.ts:22 | A license spelled with unreserved characters appears verbatim. |
| Generator.LicenseBadgeDefault | src/generator.ts:22 | A missing or empty license shows as `MIT`. |
| Generator.MakeBadges | src/generator.ts:20-23 | The build badge is the fixed string, whatever the project. |
| Generator.ScannedLicenseBadge | src/generator.ts:22 | After a successful scan the badge encodes the scanned license itself, so the `MIT` fallback of the badge never applies. |
| Generator.ReadmePath | src/generator.ts:26 | The output file is named `README.md` and lies under the project root. |
| Generator.GenerateReadme | src/generator.ts:12-29 | A scan error and a template error are passed on unchanged. Otherwise the content is the effective template rendered with the record and its badges, and the output is `README.md` under the root. |
| Generator.OutputPathFixed | src/generator.ts:26 | Every successful run writes to `JoinPath(root, "README.md")`, whatever template is asked for or available. That is `path.join(root, 'README.md')` for a normalised root. |
| Generator.DefaultRequestUsesTypeTemplate | src/generator.ts:14-15 | Asking for `default` renders `<type>.hbs` when it exists and `default.hbs` when it does not. |

## Left out

- The file system is not modelled: `fs.pathExists`, `readFile`, `readJSON` and `writeFile` become `FileRead` inputs and a returned `ReadmeWrite`. A failure of the final `writeFile` is not modelled.
- Where the templates are found is not modelled. `src/templates` is resolved against the process's working directory, not the project root, and the model takes that directory's files as given.
- Template names with `/` or `..` are not modelled. `path.join` would normalise them; the model looks them up as plain file names.
- `Paths.JoinPath`: path normalisation is not modelled. The root is assumed to be normalised already, as `process.cwd()` is (src/index.ts:15). For a root such as `/a/./b` or `.`, `path.join` gives `/a/b/README.md` or `README.md`, while the model gives `/a/./b/README.md` or `./README.md`.
- JSON parsing is not modelled. `Manifest` covers string-valued fields only, so `author` or `license` given as an object is out of scope. A manifest whose `repository` is a plain string has no `url`; that is `repositoryUrl = None`, as in the code.
- Script commands that are not strings are out of scope.
- `Object.keys` order is taken as declared order, including for integer-like keys. The scripts of a `Manifest` are assumed to have distinct names, as keys of a parsed object do.
- Handlebars compilation and rendering are not modelled. They are the parameter `render`, which is assumed not to throw.
- Logging (`console.warn`, `console.error`, `console.log`) is not modelled, and neither is async sequencing.
- A thrown value that is not an `Error` is not modelled. The code's `'Unknown error'` message for it cannot arise, because every error is a message here.
- Lone surrogates are not modelled. `encodeURIComponent` throws on them, but Dafny characters are Unicode scalar values, so they cannot occur.
- The `$` patterns of JavaScript replacement strings are not modelled. The only replacement used is `https://github.com/`, which has none.
- The CLI (`src/index.ts`) is not part of this model. It declares only the `--template` option (src/index.ts:13) and passes `process.cwd()` as the root.
- JSON values other than objects are not modelled as manifests. A `package.json` that parses to `null` makes `pkg.scripts` (src/scanner.ts:44) throw a `TypeError`, which the scan reports as `Failed to scan project: <message>` (src/scanner.ts:84-86). The model takes such a manifest as `Unreadable(message)`, which gives the same failure. A number, string, boolean or array has no fields, so it is the `Manifest` whose fields are all missing or empty.

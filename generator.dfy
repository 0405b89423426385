/** The README generator: picks the template for a scanned project, builds
    the two badges and renders the result into `README.md` at the project
    root. Rendering is a parameter; the template directory is given as the
    outcome of reading each of its files. */
module Generator {
  import opened Wrappers
  import opened Text
  import opened Paths
  import opened UriEncoding
  import opened Scanner

  /** The `type` field of a `ProjectInfo`, as the source spells it. */
  function TypeName(t: ProjectType): (name: string)
    ensures name == "node" || name == "python" || name == "default"
    ensures name == "default" <==> t == Default
  {
    match t
    case Node => "node"
    case Python => "python"
    case Default => "default"
  }

  /** Distinct project types have distinct names. */
  lemma TypeNameInjective(a: ProjectType, b: ProjectType)
    ensures TypeName(a) == TypeName(b) <==> a == b
  {
    if TypeName(a) == TypeName(b) {
      assert TypeName(a)[0] == TypeName(b)[0];
    }
  }

  /** The template the caller asks for: `default` means "the one for this
      project's type"; any other name is used as it is. */
  function EffectiveTemplateName(requested: string, t: ProjectType): (name: string)
    ensures requested == "default" ==> name == TypeName(t)
    ensures requested != "default" ==> name == requested
  {
    if requested == "default" then TypeName(t) else requested
  }

  /** The `default` template is only ever used when it is asked for by name,
      or asked for as `default` by a project of no recognised type. */
  lemma DefaultTemplateChosen(requested: string, t: ProjectType)
    ensures EffectiveTemplateName(requested, t) == "default" <==> requested == "default" && t == Default
  {
  }

  /** The template files: a file name absent from the map does not exist. */
  type TemplateDir = map<string, FileRead<string>>

  function Lookup(templates: TemplateDir, file: string): FileRead<string>
  {
    if file in templates then templates[file] else Absent
  }

  function TemplateFile(name: string): string
  {
    name + ".hbs"
  }

  const FallbackTemplateFile := "default.hbs"

  /** Why generating a README failed. */
  datatype GenerateError =
    | ScanFailed(message: string)
    | TemplateUnreadable(file: string, message: string)
    | TemplateMissing(file: string)

  /** `loadTemplate`: `<name>.hbs` if it exists, otherwise `default.hbs`. A
      file that exists but cannot be read, and a missing `default.hbs`, are
      errors naming that file. */
  function LoadTemplate(name: string, templates: TemplateDir): (r: Result<string, GenerateError>)
    ensures Lookup(templates, TemplateFile(name)).Present? ==> r == Success(Lookup(templates, TemplateFile(name)).content)
    ensures Lookup(templates, TemplateFile(name)).Unreadable? ==>
      r == Failure(TemplateUnreadable(TemplateFile(name), Lookup(templates, TemplateFile(name)).message))
    ensures Lookup(templates, TemplateFile(name)).Absent? ==>
      match Lookup(templates, FallbackTemplateFile)
      case Present(content) => r == Success(content)
      case Unreadable(message) => r == Failure(TemplateUnreadable(FallbackTemplateFile, message))
      case Absent => r == Failure(TemplateMissing(FallbackTemplateFile))
  {
    match Lookup(templates, TemplateFile(name))
    case Present(content) => Success(content)
    case Unreadable(message) => Failure(TemplateUnreadable(TemplateFile(name), message))
    case Absent =>
      match Lookup(templates, FallbackTemplateFile)
      case Present(content) => Success(content)
      case Unreadable(message) => Failure(TemplateUnreadable(FallbackTemplateFile, message))
      case Absent => Failure(TemplateMissing(FallbackTemplateFile))
  }

  /** Loading succeeds exactly when the named template can be read, or it
      does not exist and `default.hbs` can be read. */
  lemma LoadTemplateSucceeds(name: string, templates: TemplateDir)
    ensures LoadTemplate(name, templates).Success? <==>
      Lookup(templates, TemplateFile(name)).Present?
      || (Lookup(templates, TemplateFile(name)).Absent? && Lookup(templates, FallbackTemplateFile).Present?)
  {
  }

  /** Asking for a template that does not exist is the same as asking for
      `default`, whatever state `default.hbs` is in. */
  lemma FallbackConsistent(name: string, templates: TemplateDir)
    requires Lookup(templates, TemplateFile(name)).Absent?
    ensures LoadTemplate(name, templates) == LoadTemplate("default", templates)
  {
    assert TemplateFile("default") == FallbackTemplateFile;
  }

  const BuildBadge := "![build](https://img.shields.io/badge/build-passing-brightgreen)"
  const LicenseBadgePrefix := "![license](https://img.shields.io/badge/license-"
  const LicenseBadgeSuffix := "-blue)"

  /** The license badge: the license (`MIT` when missing or empty),
      percent-encoded, between a fixed prefix and suffix. */
  function LicenseBadge(license: Option<string>): (badge: string)
    ensures StartsWith(badge, LicenseBadgePrefix) && EndsWith(badge, LicenseBadgeSuffix)
    ensures |badge| >= |LicenseBadgePrefix| + |LicenseBadgeSuffix|
  {
    LicenseBadgePrefix + EncodeUriComponent(OrElse(license, "MIT")) + LicenseBadgeSuffix
  }

  /** The part of a license badge between its prefix and suffix. */
  function BadgeLicenseField(badge: string): string
    requires |badge| >= |LicenseBadgePrefix| + |LicenseBadgeSuffix|
  {
    badge[|LicenseBadgePrefix|..|badge| - |LicenseBadgeSuffix|]
  }

  /** The license field of the badge percent-decodes to the UTF-8 bytes of
      the license it was made from, and holds nothing but unreserved
      characters and `%`. */
  lemma LicenseBadgeDecodes(license: Option<string>)
    ensures var field := BadgeLicenseField(LicenseBadge(license));
      && PercentDecode(field) == Some(Utf8(OrElse(license, "MIT")))
      && forall i :: 0 <= i < |field| ==> IsUnreserved(field[i]) || field[i] == '%'
  {
    var enc := EncodeUriComponent(OrElse(license, "MIT"));
    assert BadgeLicenseField(LicenseBadge(license)) == enc;
    DecodeEncode(OrElse(license, "MIT"));
  }

  /** A license spelled with unreserved characters only appears verbatim. */
  lemma LicenseBadgeVerbatim(license: string)
    requires license != [] && AllUnreserved(license)
    ensures LicenseBadge(Some(license)) == LicenseBadgePrefix + license + LicenseBadgeSuffix
  {
    EncodeUnreserved(license);
  }

  /** A missing or empty license is shown as MIT. */
  lemma LicenseBadgeDefault(license: Option<string>)
    requires license.None? || license.value == []
    ensures LicenseBadge(license) == LicenseBadgePrefix + "MIT" + LicenseBadgeSuffix
  {
    var mit := "MIT";
    assert AllUnreserved(mit);
    EncodeUnreserved(mit);
  }

  datatype Badges = Badges(build: string, license: string)

  /** The badges of a project: the fixed build badge and the license badge. */
  function MakeBadges(info: ProjectInfo): (b: Badges)
    ensures b.build == BuildBadge
    ensures StartsWith(b.license, LicenseBadgePrefix) && EndsWith(b.license, LicenseBadgeSuffix)
  {
    Badges(BuildBadge, LicenseBadge(info.license))
  }

  /** After a successful scan the license badge encodes the scanned license
      itself: the `MIT` fallback of the badge never comes into play. */
  lemma ScannedLicenseBadge(dir: ProjectDir)
    requires ScanProject(dir).Success?
    ensures var info := ScanProject(dir).value;
      BadgeLicenseField(MakeBadges(info).license) == EncodeUriComponent(info.license.value)
  {
    ScanLicenseNonEmpty(dir);
    var info := ScanProject(dir).value;
    assert BadgeLicenseField(LicenseBadge(info.license)) == EncodeUriComponent(OrElse(info.license, "MIT"));
  }

  /** What the template is rendered with: the scanned record and the badges. */
  datatype RenderContext = RenderContext(info: ProjectInfo, badges: Badges)

  /** The file the generator writes. */
  datatype ReadmeWrite = ReadmeWrite(path: string, content: string)

  /** `path.join(root, 'README.md')`. */
  function ReadmePath(root: string): (path: string)
    ensures Basename(path) == "README.md"
    ensures StartsWith(path, root)
  {
    var name := "README.md";
    assert '/' !in name;
    BasenameOfJoin(root, name);
    JoinPath(root, name)
  }

  /** `generateReadme`: scan the project, load the effective template, render
      it with the record and the badges, and write `README.md` at the root.
      The scan error or the template error is passed on unchanged. */
  function GenerateReadme(dir: ProjectDir, templateName: string, templates: TemplateDir,
                          render: (string, RenderContext) -> string): (r: Result<ReadmeWrite, GenerateError>)
    ensures ScanProject(dir).Failure? ==> r == Failure(ScanFailed(ScanProject(dir).error))
    ensures ScanProject(dir).Success? ==>
      var info := ScanProject(dir).value;
      var template := LoadTemplate(EffectiveTemplateName(templateName, info.projectType), templates);
      && (template.Failure? ==> r == Failure(template.error))
      && (template.Success? ==> r.Success? && r.value.content == render(template.value, RenderContext(info, MakeBadges(info))))
    ensures r.Success? ==> Basename(r.value.path) == "README.md" && StartsWith(r.value.path, dir.root)
  {
    match ScanProject(dir)
    case Failure(message) => Failure(ScanFailed(message))
    case Success(info) =>
      match LoadTemplate(EffectiveTemplateName(templateName, info.projectType), templates)
      case Failure(e) => Failure(e)
      case Success(template) =>
        Success(ReadmeWrite(ReadmePath(dir.root), render(template, RenderContext(info, MakeBadges(info)))))
  }

  /** The README always goes to `<root>/README.md`, whichever template is
      asked for and whatever the templates hold. */
  lemma OutputPathFixed(dir: ProjectDir, name: string, templates: TemplateDir, render: (string, RenderContext) -> string)
    ensures GenerateReadme(dir, name, templates, render).Success? ==>
      GenerateReadme(dir, name, templates, render).value.path == JoinPath(dir.root, "README.md")
  {
  }

  /** Asking for `default` renders the template named after the project type
      when it exists, and `default.hbs` when that one does not. */
  lemma DefaultRequestUsesTypeTemplate(dir: ProjectDir, templates: TemplateDir, render: (string, RenderContext) -> string)
    requires ScanProject(dir).Success?
    ensures var info := ScanProject(dir).value;
      var context := RenderContext(info, MakeBadges(info));
      var own := Lookup(templates, TemplateFile(TypeName(info.projectType)));
      var fallback := Lookup(templates, FallbackTemplateFile);
      && (own.Present? ==>
           GenerateReadme(dir, "default", templates, render) == Success(ReadmeWrite(ReadmePath(dir.root), render(own.content, context))))
      && (own.Absent? && fallback.Present? ==>
           GenerateReadme(dir, "default", templates, render) == Success(ReadmeWrite(ReadmePath(dir.root), render(fallback.content, context))))
  {
  }
}

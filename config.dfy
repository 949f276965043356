/**
  Application configuration: the file admission predicates of
  `SecurityConfig`, the API-key check of `OpenAIConfig` and the fatal branch
  of `AppConfig.validate_configuration`. The values are the defaults the
  program falls back to when no environment variable overrides them.
*/
module Config {
  import opened Wrappers
  import Text

  /** The settings `SecurityConfig` reads at import time. */
  datatype SecurityConfig = SecurityConfig(
    maxTokens: int,
    maxRequestsPerMinute: int,
    maxFileSize: int,
    supportedExtensions: seq<string>)

  /** The default SUPPORTED_EXTENSIONS string, already split at its commas. */
  const DefaultExtensions: seq<string> := [
    ".py", ".js", ".ts", ".java", ".cpp", ".c", ".h", ".hpp", ".cs", ".go",
    ".rs", ".php", ".rb", ".swift", ".kt", ".scala", ".dart", ".r", ".m", ".pl",
    ".sh", ".sql", ".html", ".css", ".xml", ".json", ".yaml", ".yml", ".md", ".txt"]

  /** 10 MiB. */
  const DefaultMaxFileSize: int := 10485760

  const DefaultSecurity: SecurityConfig :=
    SecurityConfig(4000, 60, DefaultMaxFileSize, DefaultExtensions)

  /** `any(filename.endswith(ext) for ext in exts)`, scanning the list in order. */
  function AnyEndsWith(filename: string, exts: seq<string>): (ok: bool)
    ensures ok <==> exists i :: 0 <= i < |exts| && Text.EndsWith(filename, exts[i])
  {
    if exts == [] then false
    else Text.EndsWith(filename, exts[0]) || AnyEndsWith(filename, exts[1..])
  }

  /** `SecurityConfig.validate_file_extension`: a case-sensitive suffix test
      against the allow-list. */
  function ValidateFileExtension(cfg: SecurityConfig, filename: string): (ok: bool)
    ensures ok <==>
      exists i :: 0 <= i < |cfg.supportedExtensions| && Text.EndsWith(filename, cfg.supportedExtensions[i])
  {
    AnyEndsWith(filename, cfg.supportedExtensions)
  }

  /** `SecurityConfig.validate_file_size`: the ceiling itself is admitted. */
  function ValidateFileSize(cfg: SecurityConfig, fileSize: int): (ok: bool)
    ensures ok <==> fileSize <= cfg.maxFileSize
  {
    fileSize <= cfg.maxFileSize
  }

  /** `OpenAIConfig.is_configured`: `bool(API_KEY)`, false for an unset
      variable and for the empty string. */
  function IsConfigured(apiKey: Option<string>): (ok: bool)
    ensures ok <==> apiKey != None && apiKey != Some("")
  {
    match apiKey
    case None => false
    case Some(key) => |key| > 0
  }

  /** The `OpenAIConfig` settings other parts of the program read;
      TEMPERATURE, a float, is not part of this model. */
  datatype OpenAISettings = OpenAISettings(apiKey: Option<string>, modelName: string, maxTokens: int)

  const MissingKeyMessage: string :=
    "OpenAI API key is required. Please set OPENAI_API_KEY environment variable."

  /** `AppConfig.validate_configuration`: the `ValueError` it raises is the
      `Failure` branch. */
  function ValidateConfiguration(apiKey: Option<string>): (r: Result<bool, string>)
    ensures r.Success? <==> IsConfigured(apiKey)
    ensures r.Success? ==> r.value
    ensures r.Failure? ==> r.error == MissingKeyMessage
  {
    if !IsConfigured(apiKey) then Failure(MissingKeyMessage) else Success(true)
  }

  /** `.sh` is admitted by default, although the path validator refuses it. */
  lemma ShellScriptsAdmittedByDefault()
    ensures ValidateFileExtension(DefaultSecurity, "deploy.sh")
  {
    assert Text.EndsWith("deploy.sh", DefaultExtensions[20]);
  }

  /** The suffix test is case-sensitive: `X.PY` is refused by default. */
  lemma UpperCaseExtensionRejected()
    ensures !ValidateFileExtension(DefaultSecurity, "X.PY")
  {
    var exts := DefaultExtensions;
    assert forall i :: 0 <= i < |exts| ==> |exts[i]| >= 1 && exts[i][|exts[i]| - 1] != 'Y';
  }

  /** The size ceiling is inclusive. */
  lemma SizeCeilingInclusive()
    ensures ValidateFileSize(DefaultSecurity, 10485760)
    ensures !ValidateFileSize(DefaultSecurity, 10485761)
  {
  }
}

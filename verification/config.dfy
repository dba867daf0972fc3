/** `Engine_Config` and the validation step of `initialize_and_start`
    (src/2d_engine/2d_engine.hpp, src/2d_engine/2d_engine.cpp): each
    invalid field is replaced by its fallback, valid fields are copied. */
module EngineConfig {

  /** The source's `s16`. */
  newtype S16 = x: int | -0x8000 <= x < 0x8000

  const FallbackWidth: S16 := 800
  const FallbackHeight: S16 := 600
  const FallbackFramerate: S16 := 60

  /** `flags` is the `Engine_Flags` bit set, kept as its integer value. */
  datatype Config = Config(
    rootDir: string,
    windowTitle: string,
    windowWidth: S16,
    windowHeight: S16,
    desiredFramerate: S16,
    flags: nat)

  /** The default member initialisers; `projectInfo` is the build-time
      PROJECT_INFO_STRING. */
  function Default(projectInfo: string): (c: Config)
    ensures |projectInfo| > 0 ==> Acceptable(c)
    ensures |c.rootDir| > 0 && c.flags == 0
  {
    Config("./src", projectInfo, FallbackWidth, FallbackHeight, FallbackFramerate, 0)
  }

  /** The fields validation checks all hold a usable value. */
  predicate Acceptable(c: Config)
  {
    |c.windowTitle| > 0 && c.windowWidth > 0 && c.windowHeight > 0 && c.desiredFramerate > 0
  }

  /** Validation as written: the title, window size and frame rate get
      their fallbacks; the root directory fallback is written to the
      by-value parameter, so the validated root directory is the input's
      even when it is empty. */
  function ValidateConfig(c: Config, projectInfo: string): (v: Config)
    ensures |projectInfo| > 0 ==> Acceptable(v)
    ensures v.rootDir == c.rootDir && v.flags == c.flags
    ensures |c.windowTitle| > 0 ==> v.windowTitle == c.windowTitle
    ensures c.windowWidth > 0 && c.windowHeight > 0 ==>
      v.windowWidth == c.windowWidth && v.windowHeight == c.windowHeight
    ensures c.desiredFramerate > 0 ==> v.desiredFramerate == c.desiredFramerate
  {
    var title := if |c.windowTitle| == 0 then projectInfo else c.windowTitle;
    var sizeOk := c.windowWidth > 0 && c.windowHeight > 0;
    Config(c.rootDir, title,
           if sizeOk then c.windowWidth else FallbackWidth,
           if sizeOk then c.windowHeight else FallbackHeight,
           if c.desiredFramerate > 0 then c.desiredFramerate else FallbackFramerate,
           c.flags)
  }

  /** Each invalid field is replaced by its fallback; one bad dimension
      resets both. */
  lemma ValidateFallbacks(c: Config, projectInfo: string)
    ensures |c.windowTitle| == 0 ==> ValidateConfig(c, projectInfo).windowTitle == projectInfo
    ensures c.windowWidth <= 0 || c.windowHeight <= 0 ==>
      && ValidateConfig(c, projectInfo).windowWidth == FallbackWidth
      && ValidateConfig(c, projectInfo).windowHeight == FallbackHeight
    ensures c.desiredFramerate <= 0 ==> ValidateConfig(c, projectInfo).desiredFramerate == FallbackFramerate
  {
  }

  /** An acceptable configuration passes unchanged, and validating twice
      is validating once. */
  lemma ValidateIsIdempotent(c: Config, projectInfo: string)
    requires |projectInfo| > 0
    ensures Acceptable(c) ==> ValidateConfig(c, projectInfo) == c
    ensures ValidateConfig(ValidateConfig(c, projectInfo), projectInfo) == ValidateConfig(c, projectInfo)
  {
  }

  /** The defaults are already valid. */
  lemma DefaultIsAcceptable(projectInfo: string)
    requires |projectInfo| > 0
    ensures Acceptable(Default(projectInfo))
    ensures ValidateConfig(Default(projectInfo), projectInfo) == Default(projectInfo)
  {
    ValidateIsIdempotent(Default(projectInfo), projectInfo);
  }

  /** An empty root directory survives validation as written. */
  lemma EmptyRootDirSurvives(projectInfo: string)
    ensures ValidateConfig(Default(projectInfo).(rootDir := ""), projectInfo).rootDir == ""
  {
  }

  /** Validation as evidently intended: an empty root directory becomes
      the working directory `cwd` (a parameter: the source asks the file
      system) followed by a slash; everything else as in ValidateConfig. */
  function ValidateConfigIntended(c: Config, projectInfo: string, cwd: string): (v: Config)
    ensures |v.rootDir| > 0
    ensures |c.rootDir| > 0 ==> v.rootDir == c.rootDir
    ensures |c.rootDir| == 0 ==> v.rootDir == cwd + "/"
    ensures v.(rootDir := c.rootDir) == ValidateConfig(c, projectInfo)
  {
    var v := ValidateConfig(c, projectInfo);
    if |c.rootDir| == 0 then v.(rootDir := cwd + "/") else v
  }

  /** The corrected validation never leaves the root directory empty and
      is idempotent too. */
  lemma IntendedIsIdempotent(c: Config, projectInfo: string, cwd: string)
    requires |projectInfo| > 0
    ensures Acceptable(ValidateConfigIntended(c, projectInfo, cwd))
    ensures var v := ValidateConfigIntended(c, projectInfo, cwd);
      ValidateConfigIntended(v, projectInfo, cwd) == v
  {
    var v := ValidateConfigIntended(c, projectInfo, cwd);
    ValidateIsIdempotent(c, projectInfo);
    assert ValidateConfig(v, projectInfo) == v.(rootDir := c.rootDir).(rootDir := v.rootDir);
  }
}

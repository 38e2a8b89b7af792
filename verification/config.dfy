/**
 * The constant tables of `clipbase/config.py`, as model data: the built-in
 * ignore patterns, the (empty) extension allow-list and the extensions that
 * are always treated as binary.
 */
module Config {
  import Strings

  /** Built-in ignore patterns, in the order they are added to the rule list. */
  const DefaultIgnorePatterns: seq<string> := [
    // Version control
    ".git/", ".svn/", ".hg/",
    // Node.js
    "node_modules/", "package-lock.json", "yarn.lock", "pnpm-lock.yaml",
    // Python
    "__pycache__/", "*.pyc", "*.pyo", "*.pyd", ".venv/", "venv/", "env/",
    "*.egg-info/", "dist/", "build/",
    // Laravel
    "vendor/", "storage/framework/", "storage/logs/", ".env",
    // IDE/Editor specific
    ".vscode/", ".idea/", "*.suo", "*.ntvs*", "*.njsproj", "*.sln",
    // OS specific
    ".DS_Store", "Thumbs.db",
    // Logs and temp files
    "*.log", "*.tmp", "*.temp",
    // Compiled files
    "*.o", "*.obj", "*.so", "*.dll", "*.lib", "*.out",
    // Archives
    "*.zip", "*.tar.gz", "*.rar"
  ]

  /** Extensions admitted by the allow-list; empty means every non-binary file. */
  const AllowedExtensions: seq<string> := []

  /** Extensions (compared after lower-casing) that mark a file as binary. */
  const BinaryExtensions: seq<string> := [
    ".png", ".jpg", ".jpeg", ".gif", ".bmp", ".ico", ".tif", ".tiff",
    ".pdf", ".doc", ".docx", ".xls", ".xlsx", ".ppt", ".pptx",
    ".eot", ".otf", ".ttf", ".woff", ".woff2",
    ".mp3", ".wav", ".mp4", ".mov", ".avi",
    ".exe", ".bin", ".dll", ".so"
  ]

  /**
   * No built-in pattern is empty or starts with `#`, `!` or `/`: each one
   * survives the comment filter and compiles to a plain, unanchored ignore rule.
   */
  lemma DefaultsArePlainPatterns()
    ensures |DefaultIgnorePatterns| == 41
    ensures forall k :: 0 <= k < |DefaultIgnorePatterns| ==>
      |DefaultIgnorePatterns[k]| > 0 && DefaultIgnorePatterns[k][0] !in "#!/"
  {
  }

  /**
   * Every binary extension starts with `.` and is already lower-case, so
   * comparing a lower-cased extension against the table is consistent.
   */
  lemma BinaryExtensionsAreLowerDotted()
    ensures forall k :: 0 <= k < |BinaryExtensions| ==>
      |BinaryExtensions[k]| > 0 && BinaryExtensions[k][0] == '.' && Strings.Lower(BinaryExtensions[k]) == BinaryExtensions[k]
  {
  }
}

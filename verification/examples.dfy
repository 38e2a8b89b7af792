// Worked examples of the ignore engine on concrete patterns and paths: the
// `build/` + `!build/keep.txt` pair and three paths under the built-in rules.
// Literals enter through `requires x == "..."` so that the solver does not
// unfold them together with the rules.
module IgnoreExamples {
  import opened Pattern
  import opened Ignore
  import Config
  import Classify
  import Collect

  lemma BuildKeepSpelling(build: string, keep: string, x: string)
    requires build == "build" && keep == "keep.txt" && x == "x.txt"
    ensures PlainName(build) && build[0] != '!' && PlainName(keep) && PlainName(x) && x != keep
    ensures DirThenKeep(build, keep) == ["build/", "!build/keep.txt"]
    ensures build + "/" + keep == "build/keep.txt"
    ensures build + "/" + x == "build/x.txt"
  {
    assert x[0] != keep[0];
    assert build + "/" == "build/";
    assert "!" + build + "/" + keep == "!build/keep.txt";
  }

  /**
   * `build/` then `!build/keep.txt`: `build` and `build/x.txt` are ignored,
   * `build/keep.txt` is not; with the two lines swapped it is ignored too.
   */
  lemma BuildThenKeepExample(dirLine: string, keepLine: string, dir: string, other: string, kept: string)
    requires dirLine == "build/" && keepLine == "!build/keep.txt"
    requires dir == "build" && other == "build/x.txt" && kept == "build/keep.txt"
    ensures !IsIgnored(kept, CompileAll([dirLine, keepLine]))
    ensures IsIgnored(dir, CompileAll([dirLine, keepLine]))
    ensures IsIgnored(other, CompileAll([dirLine, keepLine]))
    ensures IsIgnored(kept, CompileAll([keepLine, dirLine]))
  {
    BuildKeepSpelling(dir, "keep.txt", "x.txt");
    LaterNegationWins(dir, "keep.txt", "x.txt");
  }

  lemma LogSpelling(path: string)
    requires path == "/a/secret.log"
    ensures Config.DefaultIgnorePatterns[29] == "*" + ".log"
    ensures path == "/a/" + "secret" + ".log" && '\n' !in path
  {
  }

  /** Under the built-in rules `/a/secret.log` is ignored, by `*.log`. */
  lemma LogFileIgnoredByDefault(path: string)
    requires path == "/a/secret.log"
    ensures IsIgnored(path, DefaultRules())
  {
    LogSpelling(path);
    DefaultSuffixIgnored(29, ".log", "/a/", "secret");
  }

  lemma NodeModulesSpelling(path: string)
    requires path == "/x/node_modules/y.js"
    ensures DropTrailingSlash(Config.DefaultIgnorePatterns[3]) == "node_modules"
    ensures path == "/x/" + "node_modules" + "/y.js" && '\n' !in path
  {
  }

  /** Under the built-in rules `/x/node_modules/y.js` is ignored, by `node_modules/`. */
  lemma NodeModulesIgnoredByDefault(path: string)
    requires path == "/x/node_modules/y.js"
    ensures IsIgnored(path, DefaultRules())
  {
    NodeModulesSpelling(path);
    DefaultTextIgnoredAnywhere(3, "/x/", "/y.js");
  }

  lemma EnvSpelling(path: string)
    requires path == "/src/myenv/a.py"
    ensures DropTrailingSlash(Config.DefaultIgnorePatterns[13]) == "env"
    ensures path == "/src/my" + "env" + "/a.py" && '\n' !in path
  {
  }

  /**
   * Under the built-in rules `/src/myenv/a.py` is ignored, by `env/`, whose
   * match starts in the middle of the segment `myenv`.
   */
  lemma EnvSuffixIgnoredByDefault(path: string)
    requires path == "/src/myenv/a.py"
    ensures IsIgnored(path, DefaultRules())
  {
    EnvSpelling(path);
    DefaultTextIgnoredAnywhere(13, "/src/my", "/a.py");
  }

  // A project's own `.gitignore` against the built-in rules. Each built-in
  // pattern is ruled out either by a literal character that `/.gitignore`
  // lacks or, for `.git/` and `*.o`, by its last character.

  lemma GitignoreMissesVersionControl(k: nat, p: string)
    requires 0 <= k < 3 && p == "/.gitignore"
    ensures !Matches(CompileMatcher(Config.DefaultIgnorePatterns[k]), p)
  {
    if k == 0 {
      var pat := Config.DefaultIgnorePatterns[0];
      assert pat == ".git/";
      assert p == "/" + ".gitignore";
      LastCharNeverMatches(pat, ".gitignore");
    } else if k == 1 {
      var pat := Config.DefaultIgnorePatterns[1];
      assert pat == ".svn/";
      ForeignCharNeverMatches(pat, p, 1);
    } else if k == 2 {
      var pat := Config.DefaultIgnorePatterns[2];
      assert pat == ".hg/";
      ForeignCharNeverMatches(pat, p, 1);
    }
  }

  lemma GitignoreMissesNode(k: nat, p: string)
    requires 3 <= k < 7 && p == "/.gitignore"
    ensures !Matches(CompileMatcher(Config.DefaultIgnorePatterns[k]), p)
  {
    if k == 3 {
      var pat := Config.DefaultIgnorePatterns[3];
      assert pat == "node_modules/";
      ForeignCharNeverMatches(pat, p, 2);
    } else if k == 4 {
      var pat := Config.DefaultIgnorePatterns[4];
      assert pat == "package-lock.json";
      ForeignCharNeverMatches(pat, p, 0);
    } else if k == 5 {
      var pat := Config.DefaultIgnorePatterns[5];
      assert pat == "yarn.lock";
      ForeignCharNeverMatches(pat, p, 0);
    } else if k == 6 {
      var pat := Config.DefaultIgnorePatterns[6];
      assert pat == "pnpm-lock.yaml";
      ForeignCharNeverMatches(pat, p, 0);
    }
  }

  lemma GitignoreMissesPythonCaches(k: nat, p: string)
    requires 7 <= k < 11 && p == "/.gitignore"
    ensures !Matches(CompileMatcher(Config.DefaultIgnorePatterns[k]), p)
  {
    if k == 7 {
      var pat := Config.DefaultIgnorePatterns[7];
      assert pat == "__pycache__/";
      ForeignCharNeverMatches(pat, p, 0);
    } else if k == 8 {
      var pat := Config.DefaultIgnorePatterns[8];
      assert pat == "*.pyc";
      ForeignCharNeverMatches(pat, p, 2);
    } else if k == 9 {
      var pat := Config.DefaultIgnorePatterns[9];
      assert pat == "*.pyo";
      ForeignCharNeverMatches(pat, p, 2);
    } else if k == 10 {
      var pat := Config.DefaultIgnorePatterns[10];
      assert pat == "*.pyd";
      ForeignCharNeverMatches(pat, p, 2);
    }
  }

  lemma GitignoreMissesPythonEnvs(k: nat, p: string)
    requires 11 <= k < 14 && p == "/.gitignore"
    ensures !Matches(CompileMatcher(Config.DefaultIgnorePatterns[k]), p)
  {
    if k == 11 {
      var pat := Config.DefaultIgnorePatterns[11];
      assert pat == ".venv/";
      ForeignCharNeverMatches(pat, p, 1);
    } else if k == 12 {
      var pat := Config.DefaultIgnorePatterns[12];
      assert pat == "venv/";
      ForeignCharNeverMatches(pat, p, 0);
    } else if k == 13 {
      var pat := Config.DefaultIgnorePatterns[13];
      assert pat == "env/";
      ForeignCharNeverMatches(pat, p, 2);
    }
  }

  lemma GitignoreMissesPythonBuilds(k: nat, p: string)
    requires 14 <= k < 17 && p == "/.gitignore"
    ensures !Matches(CompileMatcher(Config.DefaultIgnorePatterns[k]), p)
  {
    if k == 14 {
      var pat := Config.DefaultIgnorePatterns[14];
      assert pat == "*.egg-info/";
      ForeignCharNeverMatches(pat, p, 5);
    } else if k == 15 {
      var pat := Config.DefaultIgnorePatterns[15];
      assert pat == "dist/";
      ForeignCharNeverMatches(pat, p, 0);
    } else if k == 16 {
      var pat := Config.DefaultIgnorePatterns[16];
      assert pat == "build/";
      ForeignCharNeverMatches(pat, p, 0);
    }
  }

  lemma GitignoreMissesLaravel(k: nat, p: string)
    requires 17 <= k < 21 && p == "/.gitignore"
    ensures !Matches(CompileMatcher(Config.DefaultIgnorePatterns[k]), p)
  {
    if k == 17 {
      var pat := Config.DefaultIgnorePatterns[17];
      assert pat == "vendor/";
      ForeignCharNeverMatches(pat, p, 0);
    } else if k == 18 {
      var pat := Config.DefaultIgnorePatterns[18];
      assert pat == "storage/framework/";
      ForeignCharNeverMatches(pat, p, 0);
    } else if k == 19 {
      var pat := Config.DefaultIgnorePatterns[19];
      assert pat == "storage/logs/";
      ForeignCharNeverMatches(pat, p, 0);
    } else if k == 20 {
      var pat := Config.DefaultIgnorePatterns[20];
      assert pat == ".env";
      ForeignCharNeverMatches(pat, p, 3);
    }
  }

  lemma GitignoreMissesEditors(k: nat, p: string)
    requires 21 <= k < 24 && p == "/.gitignore"
    ensures !Matches(CompileMatcher(Config.DefaultIgnorePatterns[k]), p)
  {
    if k == 21 {
      var pat := Config.DefaultIgnorePatterns[21];
      assert pat == ".vscode/";
      ForeignCharNeverMatches(pat, p, 1);
    } else if k == 22 {
      var pat := Config.DefaultIgnorePatterns[22];
      assert pat == ".idea/";
      ForeignCharNeverMatches(pat, p, 2);
    } else if k == 23 {
      var pat := Config.DefaultIgnorePatterns[23];
      assert pat == "*.suo";
      ForeignCharNeverMatches(pat, p, 2);
    }
  }

  lemma GitignoreMissesEditorProjects(k: nat, p: string)
    requires 24 <= k < 27 && p == "/.gitignore"
    ensures !Matches(CompileMatcher(Config.DefaultIgnorePatterns[k]), p)
  {
    if k == 24 {
      var pat := Config.DefaultIgnorePatterns[24];
      assert pat == "*.ntvs*";
      ForeignCharNeverMatches(pat, p, 4);
    } else if k == 25 {
      var pat := Config.DefaultIgnorePatterns[25];
      assert pat == "*.njsproj";
      ForeignCharNeverMatches(pat, p, 3);
    } else if k == 26 {
      var pat := Config.DefaultIgnorePatterns[26];
      assert pat == "*.sln";
      ForeignCharNeverMatches(pat, p, 2);
    }
  }

  lemma GitignoreMissesOsFiles(k: nat, p: string)
    requires 27 <= k < 29 && p == "/.gitignore"
    ensures !Matches(CompileMatcher(Config.DefaultIgnorePatterns[k]), p)
  {
    if k == 27 {
      var pat := Config.DefaultIgnorePatterns[27];
      assert pat == ".DS_Store";
      ForeignCharNeverMatches(pat, p, 1);
    } else if k == 28 {
      var pat := Config.DefaultIgnorePatterns[28];
      assert pat == "Thumbs.db";
      ForeignCharNeverMatches(pat, p, 0);
    }
  }

  lemma GitignoreMissesLogs(k: nat, p: string)
    requires 29 <= k < 32 && p == "/.gitignore"
    ensures !Matches(CompileMatcher(Config.DefaultIgnorePatterns[k]), p)
  {
    if k == 29 {
      var pat := Config.DefaultIgnorePatterns[29];
      assert pat == "*.log";
      ForeignCharNeverMatches(pat, p, 2);
    } else if k == 30 {
      var pat := Config.DefaultIgnorePatterns[30];
      assert pat == "*.tmp";
      ForeignCharNeverMatches(pat, p, 3);
    } else if k == 31 {
      var pat := Config.DefaultIgnorePatterns[31];
      assert pat == "*.temp";
      ForeignCharNeverMatches(pat, p, 4);
    }
  }

  lemma GitignoreMissesObjectFiles(k: nat, p: string)
    requires 32 <= k < 35 && p == "/.gitignore"
    ensures !Matches(CompileMatcher(Config.DefaultIgnorePatterns[k]), p)
  {
    if k == 32 {
      var pat := Config.DefaultIgnorePatterns[32];
      assert pat == "*.o";
      assert p == "/" + ".gitignore";
      LastCharNeverMatches(pat, ".gitignore");
    } else if k == 33 {
      var pat := Config.DefaultIgnorePatterns[33];
      assert pat == "*.obj";
      ForeignCharNeverMatches(pat, p, 3);
    } else if k == 34 {
      var pat := Config.DefaultIgnorePatterns[34];
      assert pat == "*.so";
      ForeignCharNeverMatches(pat, p, 2);
    }
  }

  lemma GitignoreMissesLibraries(k: nat, p: string)
    requires 35 <= k < 38 && p == "/.gitignore"
    ensures !Matches(CompileMatcher(Config.DefaultIgnorePatterns[k]), p)
  {
    if k == 35 {
      var pat := Config.DefaultIgnorePatterns[35];
      assert pat == "*.dll";
      ForeignCharNeverMatches(pat, p, 2);
    } else if k == 36 {
      var pat := Config.DefaultIgnorePatterns[36];
      assert pat == "*.lib";
      ForeignCharNeverMatches(pat, p, 2);
    } else if k == 37 {
      var pat := Config.DefaultIgnorePatterns[37];
      assert pat == "*.out";
      ForeignCharNeverMatches(pat, p, 3);
    }
  }

  lemma GitignoreMissesArchives(k: nat, p: string)
    requires 38 <= k < 41 && p == "/.gitignore"
    ensures !Matches(CompileMatcher(Config.DefaultIgnorePatterns[k]), p)
  {
    if k == 38 {
      var pat := Config.DefaultIgnorePatterns[38];
      assert pat == "*.zip";
      ForeignCharNeverMatches(pat, p, 2);
    } else if k == 39 {
      var pat := Config.DefaultIgnorePatterns[39];
      assert pat == "*.tar.gz";
      ForeignCharNeverMatches(pat, p, 3);
    } else if k == 40 {
      var pat := Config.DefaultIgnorePatterns[40];
      assert pat == "*.rar";
      ForeignCharNeverMatches(pat, p, 3);
    }
  }

  lemma GitignoreMissesDefault(k: nat, p: string)
    requires k < |Config.DefaultIgnorePatterns| && p == "/.gitignore"
    ensures !Matches(CompileMatcher(Config.DefaultIgnorePatterns[k]), p)
  {
    if k < 3 { GitignoreMissesVersionControl(k, p); }
    else if k < 7 { GitignoreMissesNode(k, p); }
    else if k < 11 { GitignoreMissesPythonCaches(k, p); }
    else if k < 14 { GitignoreMissesPythonEnvs(k, p); }
    else if k < 17 { GitignoreMissesPythonBuilds(k, p); }
    else if k < 21 { GitignoreMissesLaravel(k, p); }
    else if k < 24 { GitignoreMissesEditors(k, p); }
    else if k < 27 { GitignoreMissesEditorProjects(k, p); }
    else if k < 29 { GitignoreMissesOsFiles(k, p); }
    else if k < 32 { GitignoreMissesLogs(k, p); }
    else if k < 35 { GitignoreMissesObjectFiles(k, p); }
    else if k < 38 { GitignoreMissesLibraries(k, p); }
    else { GitignoreMissesArchives(k, p); }
  }

  /** No built-in rule fires on `.gitignore`, so the built-in rules do not ignore it. */
  lemma GitignoreNotIgnoredByDefault()
    ensures !IsIgnored(".gitignore", DefaultRules())
  {
    var rules, p := DefaultRules(), "/.gitignore";
    assert Normalize(".gitignore") == p;
    Config.DefaultsArePlainPatterns();
    forall k | 0 <= k < |rules|
      ensures !Fires(rules[k], p)
    {
      GitignoreMissesDefault(k, p);
    }
  }

  /**
   * Under the built-in rules alone, a `.gitignore` file at the top of the
   * project is collected whenever its content is not binary and it is no
   * larger than the size limit.
   */
  lemma GitignoreCollectedByDefault(root: seq<Collect.Entry>, k: nat, maxSize: int)
    requires Collect.ValidNames(root) && k < |root|
    requires root[k].File? && root[k].name == ".gitignore"
    requires !Classify.IsBinaryByContent(root[k].bytes) && root[k].size <= maxSize
    ensures ".gitignore" in Collect.Collect(root, DefaultRules(), maxSize)
  {
    GitignoreNotIgnoredByDefault();
    GitignoreHasNoExtension(root[k].name);
    Collect.TopLevelFileCollected(root, k, DefaultRules(), maxSize);
  }

  /** `.gitignore` is a dotfile: it has no extension, so it is not binary by extension. */
  lemma GitignoreHasNoExtension(path: string)
    requires path == ".gitignore"
    ensures !Classify.IsBinaryByExtension(path)
  {
    assert path == "." + "gitignore";
    Classify.LeadingDotsAreNoExtension("", ".", "gitignore");
    Classify.PngSpelling("A.PNG", "a.png", ".png");
  }
}

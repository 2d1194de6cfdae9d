/** The naming and command assembly of the app bundler: where the bundle goes,
    what the entry file and the bundle are called, and the `react-native bundle`
    command line. Running the command is left to the environment. */
module AppBundler {
  import opened Strings
  import opened NodePath

  datatype Option<T> = None | Some(value: T)

  /** The bundler's configuration; an absent key is `None`. The bundler keeps
      its own copy of it, so every getter below is a function of this value. */
  datatype Config = Config(outputDirectory: Option<string>, appId: Option<string>,
                           platform: Option<string>, debug: Option<bool>)

  /** A value interpolated into a template literal: an absent one reads `undefined`. */
  function Interpolate(v: Option<string>): string {
    match v
    case Some(s) => s
    case None => "undefined"
  }

  function InterpolateFlag(v: Option<bool>): string {
    match v
    case Some(b) => if b then "true" else "false"
    case None => "undefined"
  }

  /** How a bundle name is made: a name given outright, or `index.<platform>.bundle`. */
  datatype NameRule = Fixed(name: string) | IndexBundle

  /** The platforms with a naming rule of their own. */
  const BundleNameGenerators: map<string, NameRule> := map["ios" := Fixed("main.jsbundle")]

  function ApplyRule(rule: NameRule, platform: string): string {
    match rule
    case Fixed(name) => name
    case IndexBundle => "index." + platform + ".bundle"
  }

  /** The bundle name of a platform: its own rule from the table, else the default rule. */
  function BundleNameFor(platform: string): (name: string)
    ensures platform == "ios" ==> name == "main.jsbundle"
    ensures platform != "ios" ==> name == "index." + platform + ".bundle"
  {
    var rule := if platform in BundleNameGenerators then BundleNameGenerators[platform] else IndexBundle;
    ApplyRule(rule, platform)
  }

  /** `getOutputDirectory`: the configured directory when it is set and not
      empty, else `path.join('temp', appId)`; never empty. */
  function OutputDirectory(c: Config): (dir: string)
    ensures dir != ""
    ensures c.outputDirectory.Some? && c.outputDirectory.value != "" ==> dir == c.outputDirectory.value
  {
    if c.outputDirectory.Some? && c.outputDirectory.value != "" then c.outputDirectory.value
    else JoinStrings("temp", Interpolate(c.appId))
  }

  /** `getEntryFileName`: `index.`, the platform as interpolated, then `.js`. */
  function EntryFileName(c: Config): (name: string)
    ensures |name| == |Interpolate(c.platform)| + 9
    ensures name[..6] == "index." && name[6..|name| - 3] == Interpolate(c.platform) && name[|name| - 3..] == ".js"
  {
    "index." + Interpolate(c.platform) + ".js"
  }

  /** `getBundleName`, with the generator table read by own keys only (the
      corrected lookup, `BundleNameFor`); the lookup line 29 performs is
      `BundleNameAsWritten`, which agrees with this one outside the names
      every object inherits. */
  function BundleName(c: Config): (name: string)
    ensures Interpolate(c.platform) == "ios" ==> name == "main.jsbundle"
    ensures Interpolate(c.platform) != "ios" ==> name == "index." + Interpolate(c.platform) + ".bundle"
    ensures Interpolate(c.platform) !in ObjectPrototypeMembers ==> BundleNameAsWritten(Interpolate(c.platform)) == Some(name)
  {
    BundleNameFor(Interpolate(c.platform))
  }

  /** Where the bundle is written: `path.join(outputDirectory, bundleName)`;
      as a path, the output directory joined with the bundle name. */
  function BundleOutput(c: Config): (out: string)
    ensures out != ""
    ensures Parse(out) == Join(Parse(OutputDirectory(c)), Parse(BundleName(c)))
  {
    JoinStringsIsJoin(OutputDirectory(c), BundleName(c));
    JoinStrings(OutputDirectory(c), BundleName(c))
  }

  /** A command-line option token: `<flag> <value>`. */
  function OptionToken(flag: string, value: string): string {
    flag + " " + value
  }

  /** The tokens of the `react-native bundle` command, in their fixed order. */
  function CommandTokens(c: Config): (tokens: seq<string>)
    ensures |tokens| == 7
  {
    ["react-native", "bundle"]
      + [OptionToken("--assets-dest", OutputDirectory(c))]
      + [OptionToken("--bundle-output", BundleOutput(c))]
      + [OptionToken("--platform", Interpolate(c.platform))]
      + [OptionToken("--dev", InterpolateFlag(c.debug))]
      + [OptionToken("--entry-file", EntryFileName(c))]
  }

  /** The command line handed to the shell: the tokens joined by single
      spaces, that is, `react-native bundle` and the five options, each flag
      followed by a space and its value. */
  function Command(c: Config): (line: string)
    ensures line == "react-native bundle"
                  + " --assets-dest " + OutputDirectory(c)
                  + " --bundle-output " + BundleOutput(c)
                  + " --platform " + Interpolate(c.platform)
                  + " --dev " + InterpolateFlag(c.debug)
                  + " --entry-file " + EntryFileName(c)
  {
    CommandLineText(OutputDirectory(c), BundleOutput(c), Interpolate(c.platform), InterpolateFlag(c.debug), EntryFileName(c));
    JoinWith(CommandTokens(c), ' ')
  }

  /** The seven tokens, joined by spaces, written out as one string. */
  lemma CommandLineText(dir: string, out: string, platform: string, dev: string, entry: string)
    ensures JoinWith(["react-native", "bundle"]
                       + [OptionToken("--assets-dest", dir)] + [OptionToken("--bundle-output", out)]
                       + [OptionToken("--platform", platform)] + [OptionToken("--dev", dev)]
                       + [OptionToken("--entry-file", entry)], ' ')
         == "react-native bundle" + " --assets-dest " + dir + " --bundle-output " + out
          + " --platform " + platform + " --dev " + dev + " --entry-file " + entry
  {
    var t0 := ["react-native", "bundle"];
    var p0 := "react-native bundle";
    assert JoinWith(t0, ' ') == p0 by {
      assert t0[1..] == ["bundle"];
    }
    OptionLiterals();
    var t1 := t0 + [OptionToken("--assets-dest", dir)];
    var p1 := p0 + " --assets-dest " + dir;
    JoinOption(t0, p0, "--assets-dest", " --assets-dest ", dir);
    var t2 := t1 + [OptionToken("--bundle-output", out)];
    var p2 := p1 + " --bundle-output " + out;
    JoinOption(t1, p1, "--bundle-output", " --bundle-output ", out);
    var t3 := t2 + [OptionToken("--platform", platform)];
    var p3 := p2 + " --platform " + platform;
    JoinOption(t2, p2, "--platform", " --platform ", platform);
    var t4 := t3 + [OptionToken("--dev", dev)];
    JoinOption(t3, p3, "--dev", " --dev ", dev);
    JoinOption(t4, p3 + " --dev " + dev, "--entry-file", " --entry-file ", entry);
  }

  /** Each flag between two spaces, written as one literal. */
  lemma OptionLiterals()
    ensures " " + "--assets-dest" + " " == " --assets-dest "
    ensures " " + "--bundle-output" + " " == " --bundle-output "
    ensures " " + "--platform" + " " == " --platform "
    ensures " " + "--dev" + " " == " --dev "
    ensures " " + "--entry-file" + " " == " --entry-file "
  {
  }

  /** Joining one more option token onto tokens that join to `line` appends
      the flag between two spaces, then the value. */
  lemma JoinOption(tokens: seq<string>, line: string, flag: string, spaced: string, value: string)
    requires |tokens| >= 1 && JoinWith(tokens, ' ') == line && spaced == " " + flag + " "
    ensures JoinWith(tokens + [OptionToken(flag, value)], ' ') == line + spaced + value
  {
    calc {
      JoinWith(tokens + [OptionToken(flag, value)], ' ');
    == { JoinSnoc(tokens, OptionToken(flag, value), ' '); }
      line + [' '] + OptionToken(flag, value);
    == { SpacedOption(line, flag, value); }
      line + spaced + value;
    }
  }

  /** An option token appended after a space: the flag between two spaces, then the value. */
  lemma SpacedOption(prefix: string, flag: string, value: string)
    ensures prefix + [' '] + OptionToken(flag, value) == prefix + (" " + flag + " ") + value
  {
  }

  // ---------------------------------------------------------------------------
  // The lookup as written

  /** The properties every plain object inherits, which `_.get` finds on the
      generator table as well as its own keys. */
  const ObjectPrototypeMembers: set<string> :=
    { "constructor", "hasOwnProperty", "isPrototypeOf", "propertyIsEnumerable",
      "toLocaleString", "toString", "valueOf", "__proto__",
      "__defineGetter__", "__defineSetter__", "__lookupGetter__", "__lookupSetter__" }

  /** What `_.get(bundleNameGenerators, platform, defaultNameGenerator)` returns:
      a naming rule, or an inherited member of the table object. */
  datatype Generator = Rule(rule: NameRule) | Inherited(member: string)

  function GeneratorAsWritten(platform: string): Generator {
    if platform in BundleNameGenerators then Rule(BundleNameGenerators[platform])
    else if platform in ObjectPrototypeMembers then Inherited(platform)
    else Rule(IndexBundle)
  }

  /** The bundle name as line 29 computes it; `None` where an inherited member
      is called instead of a naming rule (it throws, or returns something that
      is not a bundle name of either rule). The platform is read as one key,
      never as a property path. */
  function BundleNameAsWritten(platform: string): (name: Option<string>)
    ensures platform !in ObjectPrototypeMembers ==> name == Some(BundleNameFor(platform))
    ensures platform in ObjectPrototypeMembers ==> name == None
  {
    match GeneratorAsWritten(platform)
    case Rule(rule) => Some(ApplyRule(rule, platform))
    case Inherited(_) => None
  }

  // ---------------------------------------------------------------------------
  // Lemmas

  /** path.join of two plain names puts one `/` between them. */
  lemma JoinTwoNames(a: string, b: string)
    requires ValidName(a) && ValidName(b)
    ensures JoinStrings(a, b) == a + "/" + b
  {
    ParseConcat(a, b);
    ParseName(a);
    ParseName(b);
    var p := Path(false, [Name(a), Name(b)]);
    assert Parse(a + "/" + b) == p;
    NormalizeNormalized(p);
    assert Texts(p.segs) == [a, b];
    assert JoinWith([a, b], '/') == a + "/" + JoinWith([b], '/') by {
      assert [a, b][1..] == [b];
    }
  }

  /** The default output directory of a plain app id is `temp/<appId>`. */
  lemma DefaultOutputDirectory(c: Config)
    requires !(c.outputDirectory.Some? && c.outputDirectory.value != "")
    requires ValidName(Interpolate(c.appId))
    ensures OutputDirectory(c) == "temp/" + Interpolate(c.appId)
  {
    JoinTwoNames("temp", Interpolate(c.appId));
  }

  /** The bundle file lies directly inside the directory passed as
      `--assets-dest`, under the bundle's name. */
  lemma BundleInsideAssetsDirectory(c: Config)
    requires '/' !in Interpolate(c.platform)
    ensures var dir := Normalize(Parse(OutputDirectory(c)));
            Parse(BundleOutput(c)) == Path(dir.rooted, dir.segs + [Name(BundleName(c))])
  {
    var name, dir := BundleName(c), OutputDirectory(c);
    var p := Parse(dir);
    BundleNameIsPlain(Interpolate(c.platform));
    calc {
      Parse(BundleOutput(c));
    == { JoinStringsIsJoin(dir, name); }
      Join(p, Parse(name));
    == { ParseName(name); }
      Normalize(Path(p.rooted, p.segs + [Name(name)]));
    == { NormalizeAppendNames(p.segs, [Name(name)], p.rooted); }
      Path(p.rooted, NormalizeSegments(p.segs, p.rooted) + [Name(name)]);
    }
  }

  /** A platform without `/` has a bundle name that is one plain path segment. */
  lemma BundleNameIsPlain(platform: string)
    requires '/' !in platform
    ensures ValidName(BundleNameFor(platform))
  {
    if platform != "ios" {
      var name := BundleNameFor(platform);
      assert '/' !in "index." && '/' !in ".bundle";
      assert |name| > 2;
    }
  }

  /** Bundles of different platforms never share a name, so they never
      overwrite each other in one output directory. */
  lemma BundleNamesDistinct(platform1: string, platform2: string)
    requires platform1 != platform2
    ensures BundleNameFor(platform1) != BundleNameFor(platform2)
  {
    var n1, n2 := BundleNameFor(platform1), BundleNameFor(platform2);
    if platform1 != "ios" && platform2 != "ios" {
      assert n1[6..6 + |platform1|] == platform1;
    } else {
      assert n1[0] != n2[0];
    }
  }

  /** The entry file is never mistaken for the bundle: the two names differ
      for every platform. */
  lemma EntryFileIsNotBundle(c: Config)
    ensures EntryFileName(c) != BundleName(c)
  {
    var e, b := EntryFileName(c), BundleName(c);
    if Interpolate(c.platform) == "ios" {
      assert e[0] != b[0];
    } else {
      assert |e| + 4 == |b|;
    }
  }

  /** The words the shell reads from the command line: the program, the
      subcommand and five options with their values, in fixed order, as long
      as no value holds a space. */
  lemma CommandWords(c: Config)
    requires ' ' !in OutputDirectory(c) && ' ' !in BundleOutput(c) && ' ' !in Interpolate(c.platform)
    ensures Split(Command(c), ' ')
         == ["react-native", "bundle"]
          + ["--assets-dest", OutputDirectory(c)]
          + ["--bundle-output", BundleOutput(c)]
          + ["--platform", Interpolate(c.platform)]
          + ["--dev", InterpolateFlag(c.debug)]
          + ["--entry-file", EntryFileName(c)]
  {
    var dir, out, platform, dev, entry := OutputDirectory(c), BundleOutput(c), Interpolate(c.platform), InterpolateFlag(c.debug), EntryFileName(c);
    FixedWordsHaveNoSpaces();
    DerivedValuesHaveNoSpaces(c);
    SevenTokens("react-native", "bundle", "--assets-dest", dir, "--bundle-output", out,
                "--platform", platform, "--dev", dev, "--entry-file", entry);
  }

  lemma FixedWordsHaveNoSpaces()
    ensures ' ' !in "react-native" && ' ' !in "bundle" && ' ' !in "--assets-dest" && ' ' !in "--bundle-output"
    ensures ' ' !in "--platform" && ' ' !in "--dev" && ' ' !in "--entry-file"
  {
  }

  lemma DerivedValuesHaveNoSpaces(c: Config)
    requires ' ' !in Interpolate(c.platform)
    ensures ' ' !in InterpolateFlag(c.debug) && ' ' !in EntryFileName(c)
  {
  }

  /** Two words and five option tokens, joined by spaces, split back into the
      two words and the five flags each followed by its value. */
  lemma SevenTokens(a: string, b: string,
                    f1: string, v1: string, f2: string, v2: string, f3: string, v3: string,
                    f4: string, v4: string, f5: string, v5: string)
    requires ' ' !in a && ' ' !in b
    requires ' ' !in f1 && ' ' !in v1 && ' ' !in f2 && ' ' !in v2 && ' ' !in f3 && ' ' !in v3
    requires ' ' !in f4 && ' ' !in v4 && ' ' !in f5 && ' ' !in v5
    ensures Split(JoinWith([a, b] + [OptionToken(f1, v1)] + [OptionToken(f2, v2)] + [OptionToken(f3, v3)]
                             + [OptionToken(f4, v4)] + [OptionToken(f5, v5)], ' '), ' ')
         == [a, b] + [f1, v1] + [f2, v2] + [f3, v3] + [f4, v4] + [f5, v5]
  {
    var t0 := [a, b];
    SplitWithoutSeparator(a, ' ');
    SplitWithoutSeparator(b, ' ');
    SplitAllCons(b, [], ' ');
    assert [b] + [] == [b];
    SplitAllCons(a, [b], ' ');
    assert [a] + [b] == t0;
    var t1 := t0 + [OptionToken(f1, v1)];
    AppendOption(t0, f1, v1);
    var t2 := t1 + [OptionToken(f2, v2)];
    AppendOption(t1, f2, v2);
    var t3 := t2 + [OptionToken(f3, v3)];
    AppendOption(t2, f3, v3);
    var t4 := t3 + [OptionToken(f4, v4)];
    AppendOption(t3, f4, v4);
    var t5 := t4 + [OptionToken(f5, v5)];
    AppendOption(t4, f5, v5);
    SplitJoinWith(t5, ' ');
  }

  /** Appending an option token to a list of tokens appends its flag and value
      to the list's words. */
  lemma AppendOption(tokens: seq<string>, flag: string, value: string)
    requires ' ' !in flag && ' ' !in value
    ensures SplitAll(tokens + [OptionToken(flag, value)], ' ') == SplitAll(tokens, ' ') + [flag, value]
  {
    SplitOption(flag, value);
    SplitAllAppend(tokens, [OptionToken(flag, value)], ' ');
    SplitAllCons(OptionToken(flag, value), [], ' ');
    assert [OptionToken(flag, value)] + [] == [OptionToken(flag, value)];
  }

  lemma SplitAllCons(token: string, rest: seq<string>, sep: char)
    ensures SplitAll([token] + rest, sep) == Split(token, sep) + SplitAll(rest, sep)
  {
    assert ([token] + rest)[1..] == rest;
  }

  /** The words of two lists of tokens are the words of the first, then those of the second. */
  lemma {:induction false} SplitAllAppend(x: seq<string>, y: seq<string>, sep: char)
    ensures SplitAll(x + y, sep) == SplitAll(x, sep) + SplitAll(y, sep)
  {
    if x == [] {
      assert x + y == y;
    } else {
      assert (x + y)[1..] == x[1..] + y;
      SplitAllAppend(x[1..], y, sep);
    }
  }

  /** An option token `<flag> <value>` splits into the flag and the value. */
  lemma SplitOption(flag: string, value: string)
    requires ' ' !in flag && ' ' !in value
    ensures Split(OptionToken(flag, value), ' ') == [flag, value]
  {
    SplitConcat(flag, value, ' ');
    SplitWithoutSeparator(flag, ' ');
    SplitWithoutSeparator(value, ' ');
  }

  /** The words of every token, one token after another. */
  function SplitAll(tokens: seq<string>, sep: char): seq<string> {
    if tokens == [] then [] else Split(tokens[0], sep) + SplitAll(tokens[1..], sep)
  }

  /** Splitting a joined list of tokens splits each token in turn. */
  lemma {:induction false} SplitJoinWith(tokens: seq<string>, sep: char)
    requires |tokens| >= 1
    ensures Split(JoinWith(tokens, sep), sep) == SplitAll(tokens, sep)
  {
    if |tokens| == 1 {
      assert tokens[1..] == [];
    } else {
      SplitJoinWith(tokens[1..], sep);
      SplitConcat(tokens[0], JoinWith(tokens[1..], sep), sep);
    }
  }
}
